/**
 * How the parts meet across a restart: what a form submission leaves in
 * NVS, and what the next boot and the LED strip do with it.
 */
module Scenarios {
  import opened LibC
  import opened Nvs
  import opened Httpd
  import ConfigPortal
  import DiscordClock
  import LedAnimation

  /**
   * The settings portal writes to namespace "config" while the application
   * reads its credentials from "wifi": whatever the portal saves, "ssid" and
   * "pass" included, the next boot finds the same credentials as before.
   */
  lemma PortalSavesKeepCredentials(spaces: Namespaces, pairs: seq<ConfigPortal.Pair>, full: bool)
    ensures DiscordClock.StoredCredentials(ConfigPortal.ApplySaves(spaces, pairs, full))
         == DiscordClock.StoredCredentials(spaces)
  {
    assert DiscordClock.WIFI_NAMESPACE != ConfigPortal.NAMESPACE;
    ConfigPortal.SavesKeepOthers(spaces, pairs, full, DiscordClock.WIFI_NAMESPACE, "ssid", DiscordClock.SSID_BUF);
    ConfigPortal.SavesKeepOthers(spaces, pairs, full, DiscordClock.WIFI_NAMESPACE, "pass", DiscordClock.PASS_BUF);
  }

  /** A first boot with empty storage brings up the open access point and its server. */
  lemma FirstBootOpensPortal(w: DiscordClock.Wifi)
    requires DiscordClock.OneServer(w) && w.server == NULL
    ensures var (w', effs) := DiscordClock.Booted(w, DiscordClock.StoredCredentials(map[]), true);
      effs == [DiscordClock.RadioUp(DiscordClock.AP_CONFIG), DiscordClock.ServerStarted(w.next)]
      && w'.live == {w'.server} && w'.server == w.next
  {
  }

  /**
   * Credentials posted to the application's own form are the ones the next
   * boot connects with, when they are short enough and, since the handler
   * does not decode them, need no escaping.
   */
  lemma SimpleSaveThenBoot(spaces: Namespaces, ssid: string, pass: string, w: DiscordClock.Wifi, ok: bool)
    requires 1 <= |ssid| < DiscordClock.SSID_BUF && '&' !in ssid && NUL !in ssid
    requires 1 <= |pass| < DiscordClock.PASS_BUF && NUL !in pass
    requires forall i :: 0 <= i < |pass| ==> !IsSpace(pass[i])
    requires w.server == NULL
    ensures var body := DiscordClock.SSID_FIELD + ssid + DiscordClock.PASS_FIELD + pass;
      var saved := DiscordClock.SavedCredentials(spaces, DiscordClock.ScanCredentials(CStr(body)), false);
      DiscordClock.Booted(w, DiscordClock.StoredCredentials(saved), ok)
        == (w, [DiscordClock.RadioUp(DiscordClock.Station(ssid, pass))])
  {
    var body := DiscordClock.SSID_FIELD + ssid + DiscordClock.PASS_FIELD + pass;
    var c := DiscordClock.Credentials(ssid, pass);
    ScannedBody(ssid, pass);
    assert DiscordClock.ScanCredentials(CStr(body)) == c;
    DiscordClock.CredentialsRoundTrip(spaces, c);
    var saved := DiscordClock.SavedCredentials(spaces, c, false);
    assert DiscordClock.StoredCredentials(saved) == Some(c);
    StationBoot(w, c, ok);
    StationConfigFits(ssid, pass);
  }

  lemma StationConfigFits(ssid: string, pass: string)
    requires |ssid| <= DiscordClock.STA_SSID_LEN && |pass| <= DiscordClock.STA_PASS_LEN
    ensures DiscordClock.StationConfig(ssid, pass) == DiscordClock.Station(ssid, pass)
  {
    assert ssid[..Min(|ssid|, DiscordClock.STA_SSID_LEN)] == ssid;
    assert pass[..Min(|pass|, DiscordClock.STA_PASS_LEN)] == pass;
  }

  /** Boot with stored credentials and no server only brings the station up. */
  lemma StationBoot(w: DiscordClock.Wifi, c: DiscordClock.Credentials, ok: bool)
    requires w.server == NULL
    ensures DiscordClock.Booted(w, Some(c), ok) == (w, [DiscordClock.RadioUp(DiscordClock.StationConfig(c.ssid, c.pass))])
  {
    assert DiscordClock.StopServer(w, w.server) == (w, []);
    var up := DiscordClock.RadioUp(DiscordClock.StationConfig(c.ssid, c.pass));
    assert [] + [up] == [up];
  }

  lemma ScannedBody(ssid: string, pass: string)
    requires 1 <= |ssid| < DiscordClock.SSID_BUF && '&' !in ssid && NUL !in ssid
    requires 1 <= |pass| < DiscordClock.PASS_BUF && NUL !in pass
    requires forall i :: 0 <= i < |pass| ==> !IsSpace(pass[i])
    ensures DiscordClock.ScanCredentials(CStr(DiscordClock.SSID_FIELD + ssid + DiscordClock.PASS_FIELD + pass))
         == DiscordClock.Credentials(ssid, pass)
  {
    var body := DiscordClock.SSID_FIELD + ssid + DiscordClock.PASS_FIELD + pass;
    assert NUL !in body by {
      assert NUL !in DiscordClock.SSID_FIELD && NUL !in DiscordClock.PASS_FIELD;
      assert forall c :: c in body ==> c in DiscordClock.SSID_FIELD || c in ssid || c in DiscordClock.PASS_FIELD || c in pass;
    }
    CStrOfCString(body);
    assert body == DiscordClock.SSID_FIELD + ssid + DiscordClock.PASS_FIELD + pass + [];
    DiscordClock.ScanCredentialsAccepts(ssid, pass, []);
  }

  lemma {:induction false} FormEncodedLength(s: seq<char>)
    requires ConfigPortal.IsBytes(s)
    ensures |ConfigPortal.FormEncoded(s)| <= 3 * |s|
    ensures NUL !in s ==> NUL !in ConfigPortal.FormEncoded(s)
    decreases |s|
  {
    if s != [] {
      FormEncodedLength(s[1..]);
    }
  }

  /**
   * A colour chosen on the settings page, sent encoded by the browser, is
   * the colour the strip shows after the next start, when no later field of
   * the same submission overrides it.
   */
  lemma PortalColorThenInit(spaces: Namespaces, pairs: seq<ConfigPortal.Pair>, j: nat, c: LedAnimation.Rgb)
    requires j < |pairs| && pairs[j] == ConfigPortal.Pair(LedAnimation.COLOR_KEY, ConfigPortal.FormEncoded(LedAnimation.FormatHexColor(c)))
    requires forall k :: j < k < |pairs| ==> pairs[k].key != LedAnimation.COLOR_KEY
    ensures LedAnimation.InitColor(ConfigPortal.ApplySaves(spaces, pairs, false)) == c
  {
    var text := LedAnimation.FormatHexColor(c);
    EncodedColor(c);
    ConfigPortal.LastWriteWins(spaces, pairs, j);
    var after := ConfigPortal.ApplySaves(spaces, pairs, false);
    assert Read(after, ConfigPortal.NAMESPACE, LedAnimation.COLOR_KEY, ConfigPortal.VALUE_WIDTH + 1) == Ok(text);
    assert Read(after, ConfigPortal.NAMESPACE, LedAnimation.COLOR_KEY, LedAnimation.COLOR_BUF) == Ok(text);
    LedAnimation.InitColorStored(after, c);
  }

  /** The browser's encoding of a "#RRGGBB" colour fits the value field and is stored decoded. */
  lemma EncodedColor(c: LedAnimation.Rgb)
    ensures var text := LedAnimation.FormatHexColor(c);
      var pr := ConfigPortal.Pair(LedAnimation.COLOR_KEY, ConfigPortal.FormEncoded(text));
      |pr.value| <= ConfigPortal.VALUE_WIDTH && ConfigPortal.Stored(pr) == text
  {
    var text := LedAnimation.FormatHexColor(c);
    assert forall i :: 0 <= i < 7 ==> text[i] == '#' || IsXDigit(text[i]);
    assert ConfigPortal.IsBytes(text) && NUL !in text;
    FormEncodedLength(text);
    ConfigPortal.DecodeEncode(text);
    CStrOfCString(text);
  }
}
