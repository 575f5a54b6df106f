/**
 * The application's Wi-Fi bootstrap: credentials kept in the NVS namespace
 * "wifi", a minimal captive portal that stores new credentials and
 * restarts, and the event handler that switches between station mode and
 * the access point. Radio and HTTP library calls are recorded as effects in
 * ghost state; the server handles come from the HTTP library model.
 */
module DiscordClock {
  import opened LibC
  import opened Nvs
  import opened Httpd

  const WIFI_NAMESPACE: string := "wifi"
  const AP_SSID: string := "ESP32-Portal"
  const AP_MAX_CONN: nat := 4

  /** Buffer sizes, terminating NUL included. */
  const SSID_BUF: nat := 32
  const PASS_BUF: nat := 64
  const BODY_BUF: nat := 128
  /** Sizes of the `ssid` and `password` arrays of the station configuration. */
  const STA_SSID_LEN: nat := 32
  const STA_PASS_LEN: nat := 64

  const SAVED_MESSAGE: string := "Credentials saved. Rebooting..."

  datatype Credentials = Credentials(ssid: string, pass: string)

  // =====================================================================
  // Credentials in NVS

  /** What `load_credentials` finds: both keys read into their buffers, or nothing. */
  function StoredCredentials(spaces: Namespaces): Option<Credentials> {
    match Read(spaces, WIFI_NAMESPACE, "ssid", SSID_BUF)
    case Err(_) => None
    case Ok(ssid) =>
      match Read(spaces, WIFI_NAMESPACE, "pass", PASS_BUF)
      case Err(_) => None
      case Ok(pass) => Some(Credentials(ssid, pass))
  }

  /**
   * `load_credentials`: reads "ssid" and then "pass" from namespace "wifi",
   * giving up at the first failure.
   */
  method LoadCredentials(store: Store) returns (found: bool, ssid: string, pass: string)
    ensures found <==> Read(store.spaces, WIFI_NAMESPACE, "ssid", SSID_BUF).Ok?
                       && Read(store.spaces, WIFI_NAMESPACE, "pass", PASS_BUF).Ok?
    ensures found ==> StoredCredentials(store.spaces) == Some(Credentials(ssid, pass))
    ensures !found ==> StoredCredentials(store.spaces).None?
    ensures found ==> |ssid| < SSID_BUF && |pass| < PASS_BUF
  {
    ssid, pass := "", "";
    var r := store.GetStr(WIFI_NAMESPACE, "ssid", SSID_BUF);
    if r.Err? {
      return false, ssid, pass;
    }
    ssid := r.value;
    r := store.GetStr(WIFI_NAMESPACE, "pass", PASS_BUF);
    if r.Err? {
      return false, ssid, pass;
    }
    pass := r.value;
    found := true;
  }

  /** The store after `save_credentials`: "ssid" then "pass" written, each on its own. */
  function SavedCredentials(spaces: Namespaces, c: Credentials, full: bool): Namespaces {
    Written(Written(spaces, WIFI_NAMESPACE, "ssid", c.ssid, full), WIFI_NAMESPACE, "pass", c.pass, full)
  }

  /** `save_credentials`: two writes to namespace "wifi" whose errors are ignored. */
  method SaveCredentials(store: Store, c: Credentials)
    modifies store`spaces
    ensures store.spaces == SavedCredentials(old(store.spaces), c, store.full)
  {
    var _ := store.SetStr(WIFI_NAMESPACE, "ssid", c.ssid);
    var _ := store.SetStr(WIFI_NAMESPACE, "pass", c.pass);
  }

  /** Credentials that fit the boot-time buffers are found again after saving them. */
  lemma CredentialsRoundTrip(spaces: Namespaces, c: Credentials)
    requires |c.ssid| < SSID_BUF && |c.pass| < PASS_BUF
    ensures StoredCredentials(SavedCredentials(spaces, c, false)) == Some(c)
  {
    var once := Written(spaces, WIFI_NAMESPACE, "ssid", c.ssid, false);
    ReadAfterWrite(spaces, WIFI_NAMESPACE, "ssid", c.ssid, SSID_BUF);
    ReadOtherAfterWrite(once, WIFI_NAMESPACE, "pass", c.pass, false, WIFI_NAMESPACE, "ssid", SSID_BUF);
    ReadAfterWrite(once, WIFI_NAMESPACE, "pass", c.pass, PASS_BUF);
  }

  /** A stored password of 64 characters or more does not fit `pass[64]`: no credentials at boot. */
  lemma LongPasswordNotFound(spaces: Namespaces, c: Credentials)
    requires |c.ssid| < SSID_BUF && PASS_BUF <= |c.pass| < STR_MAX
    ensures StoredCredentials(SavedCredentials(spaces, c, false)).None?
  {
    var once := Written(spaces, WIFI_NAMESPACE, "ssid", c.ssid, false);
    ReadAfterWrite(spaces, WIFI_NAMESPACE, "ssid", c.ssid, SSID_BUF);
    ReadOtherAfterWrite(once, WIFI_NAMESPACE, "pass", c.pass, false, WIFI_NAMESPACE, "ssid", SSID_BUF);
  }

  // =====================================================================
  // The application's own POST /save

  const SSID_FIELD: string := "ssid="
  const PASS_FIELD: string := "&pass="

  /**
   * `sscanf(body, "ssid=%31[^&]&pass=%63s", ssid, pass)` on zeroed buffers:
   * the literal "ssid=", one to 31 characters other than '&', the literal
   * "&pass=", then after any white space one to 63 characters that are not
   * white space. A field the scan does not reach stays empty; nothing is
   * URL-decoded.
   */
  function ScanCredentials(body: seq<char>): (c: Credentials)
    ensures |c.ssid| <= SSID_BUF - 1 && '&' !in c.ssid
    ensures |c.pass| <= PASS_BUF - 1 && forall i :: 0 <= i < |c.pass| ==> !IsSpace(c.pass[i])
    ensures c.pass != [] ==> c.ssid != []
  {
    if SSID_FIELD <= body then ScanSsid(body[|SSID_FIELD|..]) else Credentials("", "")
  }

  /** The scan from `%31[^&]` on. */
  function ScanSsid(r: seq<char>): (c: Credentials)
    ensures |c.ssid| <= SSID_BUF - 1 && '&' !in c.ssid
    ensures |c.pass| <= PASS_BUF - 1 && forall i :: 0 <= i < |c.pass| ==> !IsSpace(c.pass[i])
    ensures c.pass != [] ==> c.ssid != []
  {
    var n := Min(SpanNot(r, '&'), SSID_BUF - 1);
    if n == 0 then Credentials("", "") else Credentials(r[..n], ScanPass(r[n..]))
  }

  /** The scan from the literal "&pass=" on. */
  function ScanPass(t: seq<char>): (p: string)
    ensures |p| <= PASS_BUF - 1 && forall i :: 0 <= i < |p| ==> !IsSpace(p[i])
  {
    if PASS_FIELD <= t then ScanWord(t[|PASS_FIELD|..], PASS_BUF - 1) else ""
  }

  /** The body the form sends for short credentials scans back to them, raw. */
  lemma ScanCredentialsAccepts(ssid: string, pass: string, tail: string)
    requires 1 <= |ssid| < SSID_BUF && '&' !in ssid
    requires 1 <= |pass| < PASS_BUF && forall i :: 0 <= i < |pass| ==> !IsSpace(pass[i])
    requires tail == [] || IsSpace(tail[0])
    ensures ScanCredentials(SSID_FIELD + ssid + PASS_FIELD + pass + tail) == Credentials(ssid, pass)
  {
    var rest := PASS_FIELD + pass + tail;
    assert SSID_FIELD + ssid + PASS_FIELD + pass + tail == SSID_FIELD + (ssid + rest);
    assert (SSID_FIELD + (ssid + rest))[|SSID_FIELD|..] == ssid + rest;
    ScanSsidAccepts(ssid, rest);
    ScanPassAccepts(pass, tail);
  }

  lemma ScanSsidAccepts(ssid: string, rest: string)
    requires 1 <= |ssid| < SSID_BUF && '&' !in ssid
    requires PASS_FIELD <= rest
    ensures ScanSsid(ssid + rest) == Credentials(ssid, ScanPass(rest))
  {
    SpanNotOfPiece(ssid, '&', rest);
    assert (ssid + rest)[..|ssid|] == ssid;
    assert (ssid + rest)[|ssid|..] == rest;
  }

  lemma ScanPassAccepts(pass: string, tail: string)
    requires 1 <= |pass| < PASS_BUF && forall i :: 0 <= i < |pass| ==> !IsSpace(pass[i])
    requires tail == [] || IsSpace(tail[0])
    ensures ScanPass(PASS_FIELD + pass + tail) == pass
  {
    assert (PASS_FIELD + pass + tail)[|PASS_FIELD|..] == [] + pass + tail;
    ScanWordOf([], pass, tail, PASS_BUF - 1);
    assert pass[..|pass|] == pass;
  }

  /** A body not starting with "ssid=" leaves both fields empty. */
  lemma ScanCredentialsOtherBody(body: seq<char>)
    requires !(SSID_FIELD <= body)
    ensures ScanCredentials(body) == Credentials("", "")
  {
  }

  /** An SSID of 32 characters or more is cut to 31, and the password is then never reached. */
  lemma ScanCredentialsLongSsid(ssid: string, rest: string)
    requires |ssid| >= SSID_BUF && '&' !in ssid
    ensures ScanCredentials(SSID_FIELD + ssid + rest) == Credentials(ssid[..SSID_BUF - 1], "")
  {
    var r := ssid + rest;
    assert (SSID_FIELD + ssid + rest)[|SSID_FIELD|..] == r;
    assert r[..SSID_BUF] == ssid[..SSID_BUF];
    SpanAtLeast(r, '&', SSID_BUF);
    assert r[..SSID_BUF - 1] == ssid[..SSID_BUF - 1];
    assert r[SSID_BUF - 1..][0] == ssid[SSID_BUF - 1];
  }

  lemma {:induction false} SpanAtLeast(s: seq<char>, d: char, k: nat)
    requires k <= |s| && d !in s[..k]
    ensures SpanNot(s, d) >= k
    decreases k
  {
    if k > 0 {
      assert s[0] in s[..k];
      assert s[1..][..k - 1] == s[..k][1..];
      assert forall c :: c in s[..k][1..] ==> c in s[..k];
      SpanAtLeast(s[1..], d, k - 1);
    }
  }

  /**
   * The application's `save_post_handler`. A failed receive answers 500;
   * otherwise whatever the scan found, empty fields included, is saved and
   * a restart follows the notice.
   */
  method SavePost(store: Store, ret: int, data: seq<char>) returns (resp: Response, err: EspErr, restart: bool)
    requires ret <= 0 || (ret == |data| && ret < BODY_BUF)
    modifies store`spaces
    ensures ret <= 0 ==> resp == ServerError && err == EspFail && !restart && store.spaces == old(store.spaces)
    ensures ret > 0 ==> store.spaces == SavedCredentials(old(store.spaces), ScanCredentials(CStr(data)), store.full)
    ensures ret > 0 ==> resp == Page("text/html", SAVED_MESSAGE) && restart && err == EspOk
  {
    if ret <= 0 {
      return ServerError, EspFail, false;
    }
    var c := ScanCredentials(CStr(data));
    SaveCredentials(store, c);
    resp, err, restart := Page("text/html", SAVED_MESSAGE), EspOk, true;
  }

  // =====================================================================
  // Station / access point switching

  datatype WifiEventId = StaStart | StaDisconnected | ApStaConnected | ApStaDisconnected | OtherWifiEvent

  /** The events the handler is registered for: every WIFI_EVENT, and IP_EVENT_STA_GOT_IP. */
  datatype Event = WifiEvent(id: WifiEventId) | StaGotIp

  datatype RadioConfig =
    | AccessPoint(ssid: string, maxConnection: nat, open: bool)
    | Station(ssid: string, password: string)

  /** The library calls the handler and its helpers make, in order. */
  datatype Effect =
    | Connect                         // esp_wifi_connect
    | RadioUp(config: RadioConfig)    // netif creation, esp_wifi_init, set_mode, set_config, esp_wifi_start
    | ServerStarted(handle: Handle)   // httpd_start succeeded
    | ServerStopped(handle: Handle)   // httpd_stop
    | Notified                        // connection_success_callback

  const AP_CONFIG: RadioConfig := AccessPoint(AP_SSID, AP_MAX_CONN, true)

  /** The station configuration: each field copied by `strncpy` into its fixed array. */
  function StationConfig(ssid: string, pass: string): (r: RadioConfig)
    ensures r.Station? && r.ssid <= ssid && r.password <= pass
    ensures |r.ssid| == Min(|ssid|, STA_SSID_LEN) && |r.password| == Min(|pass|, STA_PASS_LEN)
  {
    Station(ssid[..Min(|ssid|, STA_SSID_LEN)], pass[..Min(|pass|, STA_PASS_LEN)])
  }

  /** The module's two globals, with the HTTP library's running servers and next handle. */
  datatype Wifi = Wifi(staConnected: bool, server: Handle, live: set<Handle>, next: Handle)

  /**
   * At most one server runs, and it is the one `server` names; a handle in
   * `server` always names a running server, so stopping it is allowed.
   */
  predicate OneServer(w: Wifi) {
    w.live <= {w.server} && NULL !in w.live && (w.server != NULL ==> w.server in w.live)
    && w.server < w.next && NULL < w.next
  }

  /** `stop_webserver`: nothing for NULL. */
  function StopServer(w: Wifi, h: Handle): (Wifi, seq<Effect>) {
    if h != NULL then (w.(live := w.live - {h}), [ServerStopped(h)]) else (w, [])
  }

  /** `start_webserver`, which is given whether `httpd_start` succeeds. */
  function StartServer(w: Wifi, ok: bool): (Wifi, Handle, seq<Effect>) {
    if ok then (w.(live := w.live + {w.next}, next := w.next + 1), w.next, [ServerStarted(w.next)])
    else (w, NULL, [])
  }

  /** `start_ap`: stop the running server, bring the access point up, start a server and keep its handle. */
  function ApStarted(w: Wifi, ok: bool): (r: (Wifi, seq<Effect>))
    ensures r.0.staConnected == w.staConnected && w.next <= r.0.next
    ensures RadioUp(AP_CONFIG) in r.1 && Connect !in r.1 && Notified !in r.1
    ensures ok ==> r.0.server == w.next && r.0.next == w.next + 1
    ensures !ok ==> r.0.server == NULL && r.0.next == w.next
  {
    var (w1, stopped) := StopServer(w, w.server);
    var (w2, h, started) := StartServer(w1, ok);
    var effs := stopped + [RadioUp(AP_CONFIG)] + started;
    assert effs[|stopped|] == RadioUp(AP_CONFIG);
    assert forall e :: e in effs ==> e in stopped || e == RadioUp(AP_CONFIG) || e in started;
    (w2.(server := h), effs)
  }

  /** `start_sta`: stop the running server and bring the station up; `server` keeps its old value. */
  function StaStarted(w: Wifi, ssid: string, pass: string): (r: (Wifi, seq<Effect>))
    ensures r.0.server == w.server
    ensures w.server != NULL ==> r.0.live == w.live - {w.server}
    ensures w.server == NULL ==> r.0 == w
    ensures r.0.staConnected == w.staConnected && r.0.next == w.next
    ensures r.1 != [] && r.1[|r.1| - 1] == RadioUp(StationConfig(ssid, pass))
  {
    var (w1, stopped) := StopServer(w, w.server);
    var effs := stopped + [RadioUp(StationConfig(ssid, pass))];
    assert effs[|effs| - 1] == RadioUp(StationConfig(ssid, pass));
    (w1, effs)
  }

  /** `wifi_event_handler`. */
  function OnEvent(w: Wifi, ev: Event, ok: bool): (r: (Wifi, seq<Effect>))
    ensures ev != WifiEvent(StaDisconnected) ==> r.0.server == w.server && r.0.live == w.live && r.0.next == w.next
    ensures ev == StaGotIp ==> r.0.staConnected && r.1 == [Notified]
    ensures ev == WifiEvent(StaStart) ==> r.1 == [Connect]
    ensures ev.WifiEvent? && ev.id != StaStart && ev.id != StaDisconnected ==> r == (w, [])
  {
    match ev
    case WifiEvent(StaStart) => (w, [Connect])
    case WifiEvent(StaDisconnected) => ApStarted(w.(staConnected := false), ok)
    case WifiEvent(_) => (w, [])
    case StaGotIp => (w.(staConnected := true), [Notified])
  }

  /** The boot branch of `app_main`. */
  function Booted(w: Wifi, creds: Option<Credentials>, ok: bool): (r: (Wifi, seq<Effect>))
    ensures creds.Some? ==> r.0.server == w.server && RadioUp(StationConfig(creds.value.ssid, creds.value.pass)) in r.1
    ensures creds.None? ==> RadioUp(AP_CONFIG) in r.1
    ensures creds.Some? ==> RadioUp(AP_CONFIG) !in r.1
  {
    match creds
    case Some(c) => StaStarted(w, c.ssid, c.pass)
    case None => ApStarted(w, ok)
  }

  /** The state after a run of events, and everything they caused; `oks` says which server starts succeed. */
  function Run(w: Wifi, evs: seq<Event>, oks: seq<bool>): (Wifi, seq<Effect>)
    requires |evs| == |oks|
  {
    if evs == [] then (w, [])
    else
      var (w1, e1) := Run(w, evs[..|evs| - 1], oks[..|oks| - 1]);
      var (w2, e2) := OnEvent(w1, evs[|evs| - 1], oks[|oks| - 1]);
      (w2, e1 + e2)
  }

  /**
   * After `start_ap` exactly the new server runs when it started, and none
   * when it failed; the old one is stopped before the radio comes up.
   */
  lemma ApStartLeavesOneServer(w: Wifi, ok: bool)
    requires OneServer(w)
    ensures var (w', effs) := ApStarted(w, ok);
      OneServer(w')
      && (ok ==> w'.server != NULL && w'.server != w.server && w'.live == {w'.server})
      && (!ok ==> w'.server == NULL && w'.live == {})
      && (w.server != NULL ==> effs[0] == ServerStopped(w.server))
      && RadioUp(AP_CONFIG) in effs
  {
    var (w1, stopped) := StopServer(w, w.server);
    assert w1.live == {};
  }

  /** Every event keeps at most one server running. */
  lemma OnEventKeepsOneServer(w: Wifi, ev: Event, ok: bool)
    requires OneServer(w)
    ensures OneServer(OnEvent(w, ev, ok).0)
  {
    if ev == WifiEvent(StaDisconnected) {
      ApStartLeavesOneServer(w.(staConnected := false), ok);
    }
  }

  /** However the events come, at most one server runs. */
  lemma {:induction false} RunKeepsOneServer(w: Wifi, evs: seq<Event>, oks: seq<bool>)
    requires |evs| == |oks| && OneServer(w)
    ensures OneServer(Run(w, evs, oks).0)
    decreases |evs|
  {
    if evs != [] {
      RunKeepsOneServer(w, evs[..|evs| - 1], oks[..|oks| - 1]);
      OnEventKeepsOneServer(Run(w, evs[..|evs| - 1], oks[..|oks| - 1]).0, evs[|evs| - 1], oks[|oks| - 1]);
    }
  }

  /**
   * A disconnect goes straight to the access point: the flag drops, the
   * access point comes up, and no reconnect is attempted.
   */
  lemma DisconnectFallsBack(w: Wifi, ok: bool)
    ensures var (w', effs) := OnEvent(w, WifiEvent(StaDisconnected), ok);
      !w'.staConnected && RadioUp(AP_CONFIG) in effs && Connect !in effs && Notified !in effs
  {
  }

  /** One event calls back once if it is a got-IP event, and otherwise not at all. */
  lemma NotifiesOnGotIp(w: Wifi, ev: Event, ok: bool)
    ensures multiset(OnEvent(w, ev, ok).1)[Notified] == if ev == StaGotIp then 1 else 0
  {
    if ev == WifiEvent(StaDisconnected) {
      var (w1, stopped) := StopServer(w.(staConnected := false), w.server);
      var (w2, h, started) := StartServer(w1, ok);
      assert multiset(stopped + [RadioUp(AP_CONFIG)] + started) == multiset(stopped) + multiset{RadioUp(AP_CONFIG)} + multiset(started);
    }
  }

  /** The callback runs once per got-IP event and at no other time. */
  lemma {:induction false} RunNotifiesPerGotIp(w: Wifi, evs: seq<Event>, oks: seq<bool>)
    requires |evs| == |oks|
    ensures multiset(Run(w, evs, oks).1)[Notified] == multiset(evs)[StaGotIp]
    decreases |evs|
  {
    if evs != [] {
      var n := |evs| - 1;
      RunNotifiesPerGotIp(w, evs[..n], oks[..n]);
      var before := Run(w, evs[..n], oks[..n]);
      var step := OnEvent(before.0, evs[n], oks[n]);
      NotifiesOnGotIp(before.0, evs[n], oks[n]);
      assert Run(w, evs, oks).1 == before.1 + step.1;
      assert multiset(before.1 + step.1) == multiset(before.1) + multiset(step.1);
      assert evs == evs[..n] + [evs[n]];
      assert multiset(evs) == multiset(evs[..n]) + multiset{evs[n]};
    }
  }

  /** The last of the got-IP and disconnect events in `evs`, or `initial` when there is none. */
  function LinkAfter(initial: bool, evs: seq<Event>): bool {
    if evs == [] then initial
    else if evs[|evs| - 1] == StaGotIp then true
    else if evs[|evs| - 1] == WifiEvent(StaDisconnected) then false
    else LinkAfter(initial, evs[..|evs| - 1])
  }

  /** `sta_connected` tells whether the latest got-IP came after the latest disconnect. */
  lemma {:induction false} RunTracksLink(w: Wifi, evs: seq<Event>, oks: seq<bool>)
    requires |evs| == |oks|
    ensures Run(w, evs, oks).0.staConnected == LinkAfter(w.staConnected, evs)
    decreases |evs|
  {
    if evs != [] {
      var n := |evs| - 1;
      RunTracksLink(w, evs[..n], oks[..n]);
      var w1 := Run(w, evs[..n], oks[..n]).0;
      if evs[n] == WifiEvent(StaDisconnected) {
        var (wa, sa) := StopServer(w1.(staConnected := false), w1.server);
        assert !wa.staConnected;
      }
    }
  }

  /** Boot goes to station mode exactly when both credentials were read, and to the access point otherwise. */
  lemma BootBranch(w: Wifi, creds: Option<Credentials>, ok: bool)
    requires OneServer(w) && w.server == NULL
    ensures var (w', effs) := Booted(w, creds, ok);
      OneServer(w')
      && (creds.Some? ==> effs == [RadioUp(StationConfig(creds.value.ssid, creds.value.pass))] && w' == w)
      && (creds.None? ==> RadioUp(AP_CONFIG) in effs && (ok ==> w'.live == {w'.server} && w'.server != NULL))
  {
    if creds.None? {
      ApStartLeavesOneServer(w, ok);
    } else {
      assert StopServer(w, w.server) == (w, []);
    }
  }

  /** An event stops only a server that is running. */
  lemma OnEventStopsOnlyLive(w: Wifi, ev: Event, ok: bool, h: Handle)
    requires OneServer(w) && ServerStopped(h) in OnEvent(w, ev, ok).1
    ensures h in w.live && h == w.server
  {
    if ev == WifiEvent(StaDisconnected) {
      var w0 := w.(staConnected := false);
      var (w1, stopped) := StopServer(w0, w0.server);
      var (w2, h2, started) := StartServer(w1, ok);
      assert OnEvent(w, ev, ok).1 == stopped + [RadioUp(AP_CONFIG)] + started;
      assert ServerStopped(h) !in started;
      assert ServerStopped(h) in stopped;
    }
  }

  /**
   * From the start of `app_main` on, whatever the stored credentials and the
   * events, the state keeps `OneServer`, so every stop is of a running server.
   */
  lemma {:induction false} BootThenRunKeepsOneServer(w: Wifi, creds: Option<Credentials>, ok: bool,
                                                     evs: seq<Event>, oks: seq<bool>)
    requires OneServer(w) && w.server == NULL && |evs| == |oks|
    ensures OneServer(Run(Booted(w, creds, ok).0, evs, oks).0)
  {
    BootBranch(w, creds, ok);
    RunKeepsOneServer(Booted(w, creds, ok).0, evs, oks);
  }

  /**
   * `start_sta` with a running server stops it but leaves its handle in
   * `server`. `app_main` only calls it before any server exists; from a
   * state with a server, the handle would be left stale and the next
   * `start_ap` would stop a server that no longer runs.
   */
  lemma StaStartLeavesStaleHandle(w: Wifi, ssid: string, pass: string, ok: bool)
    requires OneServer(w) && w.server != NULL
    ensures var w' := StaStarted(w, ssid, pass).0;
      w'.server == w.server && w'.server !in w'.live && !OneServer(w')
      && ApStarted(w', ok).1[0] == ServerStopped(w'.server)
  {
    var w' := StaStarted(w, ssid, pass).0;
    assert StopServer(w', w'.server).1 == [ServerStopped(w'.server)];
  }

  // ---------------------------------------------------------------------
  // The same logic over the module's globals

  class WifiApp {
    var staConnected: bool
    var server: Handle
    const httpd: Daemon
    const nvs: Store
    ghost var effects: seq<Effect>

    function State(): Wifi
      reads this, httpd
    {
      Wifi(staConnected, server, httpd.live, httpd.next)
    }

    ghost predicate Valid()
      reads this, httpd
    {
      httpd.Valid() && OneServer(State())
    }

    /** The globals as the program starts: not connected and no server. */
    constructor (daemon: Daemon, store: Store)
      requires daemon.Valid() && daemon.live == {}
      ensures Valid() && httpd == daemon && nvs == store
      ensures !staConnected && server == NULL && effects == []
    {
      httpd, nvs := daemon, store;
      staConnected, server := false, NULL;
      effects := [];
    }

    method StopWebserver(h: Handle)
      requires httpd.Valid() && (h == NULL || h in httpd.live)
      modifies httpd`live, this`effects
      ensures httpd.Valid()
      ensures State() == StopServer(old(State()), h).0
      ensures effects == old(effects) + StopServer(old(State()), h).1
    {
      if h != NULL {
        httpd.Stop(h);
        effects := effects + [ServerStopped(h)];
      } else {
        assert effects + [] == effects;
      }
    }

    method StartWebserver(ok: bool) returns (h: Handle)
      requires httpd.Valid()
      modifies httpd, this`effects
      ensures httpd.Valid()
      ensures State() == StartServer(old(State()), ok).0 && h == StartServer(old(State()), ok).1
      ensures effects == old(effects) + StartServer(old(State()), ok).2
    {
      h := httpd.Start(ok);
      if h != NULL {
        effects := effects + [ServerStarted(h)];
      } else {
        assert effects + [] == effects;
      }
    }

    method StartAp(ok: bool)
      requires Valid()
      modifies this, httpd
      ensures Valid()
      ensures State() == ApStarted(old(State()), ok).0
      ensures effects == old(effects) + ApStarted(old(State()), ok).1
    {
      ghost var w0, e0 := State(), effects;
      ApStartLeavesOneServer(w0, ok);
      if server != NULL {
        StopWebserver(server);
      }
      ghost var e1 := effects;
      effects := effects + [RadioUp(AP_CONFIG)];
      server := StartWebserver(ok);
      assert effects == e1 + [RadioUp(AP_CONFIG)] + StartServer(StopServer(w0, w0.server).0, ok).2;
    }

    /** `start_sta`; the globals stay consistent when no server was running, which is how `app_main` calls it. */
    method StartSta(ssid: string, pass: string)
      requires Valid()
      modifies httpd`live, this`effects
      ensures httpd.Valid()
      ensures old(server) == NULL ==> Valid()
      ensures State() == StaStarted(old(State()), ssid, pass).0
      ensures effects == old(effects) + StaStarted(old(State()), ssid, pass).1
    {
      if server != NULL {
        StopWebserver(server);
      }
      effects := effects + [RadioUp(StationConfig(ssid, pass))];
    }

    method HandleEvent(ev: Event, ok: bool)
      requires Valid()
      modifies this, httpd
      ensures Valid()
      ensures State() == OnEvent(old(State()), ev, ok).0
      ensures effects == old(effects) + OnEvent(old(State()), ev, ok).1
    {
      match ev {
        case WifiEvent(id) =>
          match id {
            case StaStart =>
              effects := effects + [Connect];
            case StaDisconnected =>
              staConnected := false;
              StartAp(ok);
            case ApStaConnected =>
            case ApStaDisconnected =>
            case OtherWifiEvent =>
          }
        case StaGotIp =>
          staConnected := true;
          effects := effects + [Notified];
      }
    }

    /** The boot branch of `app_main`: station mode with stored credentials, else the access point. */
    method AppMain(ok: bool)
      requires Valid() && server == NULL
      modifies this, httpd
      ensures Valid()
      ensures State() == Booted(old(State()), StoredCredentials(nvs.spaces), ok).0
      ensures effects == old(effects) + Booted(old(State()), StoredCredentials(nvs.spaces), ok).1
    {
      var found, ssid, pass := LoadCredentials(nvs);
      if found {
        StartSta(ssid, pass);
      } else {
        StartAp(ok);
      }
    }
  }
}
