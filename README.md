# Wi-Fi bootstrap and configuration portal of an ESP32 clock, in Dafny

This project models the connectivity and provisioning layer of an ESP32
firmware, and the LED colour logic that reads its settings:

- **Settings store** (`nvs.dfy`, module `Nvs`): the NVS library as the firmware
  uses it. Values are strings under keys, grouped in namespaces. The model covers
  the error codes for keys that are too long, values that are too long, a full
  partition, a missing key and a too-small read buffer.
- **Configuration portal** (`config_portal.dfy`, module `ConfigPortal`):
  - `save_setting` / `load_setting` on namespace "config";
  - `url_decode`, written as a loop and proved equal to a recursive specification
    and inverse to a browser's form encoding;
  - the `POST /save` handler: `strtok` on '&', then `sscanf("%31[^=]=%127s")`,
    decode and save each pair, then restart or redirect;
  - the `{{LED_COLOR}}` substitution of `GET /`;
  - the JSON of `GET /settings.json`;
  - starting and stopping the portal's server.
- **Application** (`discord_clock.dfy`, module `DiscordClock`):
  - credentials in namespace "wifi";
  - the application's own `POST /save`, which scans `ssid=%31[^&]&pass=%63s` and
    does not decode;
  - the Wi-Fi event handler, which switches between station and access point.

  The module globals `sta_connected` and `server` are the fields of class
  `WifiApp`. Each of its methods is tied to a pure transition function
  (`StopServer`, `StartServer`, `ApStarted`, `StaStarted`, `OnEvent`, `Booted`,
  `Run`). Radio and HTTP library calls are recorded, in order, as `Effect`s.
- **LED animation** (`led_animation.dfy`, module `LedAnimation`):
  - `parse_hex_color`, built on an explicit `strtol` in base 16 and the cut to
    `uint8_t`;
  - the colour chosen at start-up;
  - `led_animation_set`;
  - one pass of `led_task`, which fills the pixel array.
- **C library** (`libc.dfy`, module `LibC`): NUL-terminated strings, `isspace`,
  `isxdigit`, `strstr`, `strtok`, `strtol(…, 16)` and the conversion to `uint8_t`.
- **HTTP library** (`httpd.dfy`, module `Httpd`): server handles, and the three kinds
  of response the handlers send.
- **Across a restart** (`scenarios.dfy`, module `Scenarios`): what one handler
  stores and what the next boot or the LED strip does with it.

Three behaviours of the code deserve mention:

- The code has no station retry counter. The first `WIFI_EVENT_STA_DISCONNECTED`
  switches to the access point at once (`DiscordClock.DisconnectFallsBack`).
- The settings portal stores "ssid" and "pass" in namespace "config". The
  application reads its credentials from namespace "wifi". So a portal save never
  changes the credentials the next boot uses (`Scenarios.PortalSavesKeepCredentials`).
- The body size limit is not checked. `httpd_req_recv` is asked for
  `content_len` bytes into a fixed buffer, so an oversized body does not fail
  with a server error. The model states the fitting body as a precondition.

## Model

| member | source | states |
|---|---|---|
| LibC.ToByte | components/led_animation/led_animation.c:48-50 | the `uint8_t` cast keeps values 0..255 and otherwise reduces modulo 256 |
| LibC.CStr | components/config_portal/config_portal.c:150 | the string a buffer holds is the prefix before the first NUL, NUL-free |
| LibC.CStrOfCString | components/config_portal/config_portal.c:150 | a NUL-free buffer is its own C string |
| LibC.HexValue | components/config_portal/config_portal.c:38-41 | a hexadecimal digit has a value below 16 |
| LibC.SpanNot | components/config_portal/config_portal.c:157 | the `%[^=]` run: the longest prefix without the delimiter, stopped by it |
| LibC.SpanSpace | components/config_portal/config_portal.c:157 | the white space `%s` skips: the longest run of `isspace` characters |
| LibC.SpanNonSpace | components/config_portal/config_portal.c:157 | the `%s` field: the longest run without white space |
| LibC.ScanWord | components/config_portal/config_portal.c:157 | the `%127s` conversion skips white space and reads at most the width of characters from the input, none of them white space |
| LibC.ScanWordOf | components/config_portal/config_portal.c:157 | after leading white space a word is read up to the next white space or the end, cut to the width |
| LibC.ScanWordWhole | components/config_portal/config_portal.c:157 | a word no wider than the field is read whole |
| LibC.ScanWordOfSpace | components/config_portal/config_portal.c:157 | only white space reads nothing, so the conversion fails |
| LibC.CStrStopsAtNul | components/config_portal/config_portal.c:158-160 | a string in a buffer ends at the first NUL, whatever follows it |
| LibC.FindFirst | components/config_portal/config_portal.c:110 | `strstr` finds the first occurrence, or reports that there is none |
| LibC.Tokens | components/config_portal/config_portal.c:154-166 | `strtok` yields only nonempty tokens free of the delimiter (the splitting law is `LibC.TokensSplit`) |
| LibC.SpanNotPrefix | components/config_portal/config_portal.c:157 | the delimiter-free run of `x` is unchanged by anything appended that starts with the delimiter |
| LibC.TokensSplit | components/config_portal/config_portal.c:154-166 | the tokens of `x d y` are the tokens of `x` followed by those of `y`, for all `x` and `y`: leading, trailing and repeated delimiters produce no token |
| LibC.TokensOfRun | components/config_portal/config_portal.c:154-166 | a string that starts with a token yields that token first, even when more text follows after a delimiter |
| LibC.TokensExtraDelimiters | components/config_portal/config_portal.c:154-166 | a trailing delimiter, or a doubled one, leaves the tokens unchanged |
| LibC.TokensOfJoin | components/config_portal/config_portal.c:154-166 | splitting pieces joined by '&' gives the pieces back |
| LibC.TokensSkipDelimiters | components/config_portal/config_portal.c:154-166 | leading delimiters produce no token |
| LibC.StrtolTwoDigits | components/led_animation/led_animation.c:48-50 | `strtol` on two hex digits gives 16·first + second |
| LibC.StrtolHex | components/led_animation/led_animation.c:48-50 | `strtol(…, 16)` skips white space, reads a sign and a `0x` prefix; a negative result needs a '-', and no hexadecimal digit gives 0 |
| LibC.StrtolTwoCharsRange | components/led_animation/led_animation.c:44-50 | `strtol` on any two characters lies in -15..255 |
| Nvs.ReadOr | components/config_portal/config_portal.c:99-102 | a preset buffer holds the loaded value, which fits the buffer, or keeps the preset |
| Nvs.WriteStatus | components/config_portal/config_portal.c:72 | `nvs_set_str` succeeds iff the key has at most 15 characters, the value with its NUL fits 4000 bytes and the partition has room; otherwise KEY_TOO_LONG, VALUE_TOO_LONG or NOT_ENOUGH_SPACE |
| Nvs.Written | components/config_portal/config_portal.c:72-73 | a committed write sets the key to the value and changes no other key or namespace; a refused one changes nothing |
| Nvs.Read | components/config_portal/config_portal.c:85 | `nvs_get_str` succeeds iff the key exists and its value with the NUL fits the buffer, yielding the value; otherwise NOT_FOUND for a missing key, INVALID_LENGTH for a long value |
| Nvs.ReadAfterWrite | components/config_portal/config_portal.c:67-88 | a committed value reads back when it fits the buffer |
| Nvs.ReadOtherAfterWrite | components/config_portal/config_portal.c:67-88 | a write leaves every other key of every namespace as it was |
| Nvs.FailedWriteKeepsAll | components/config_portal/config_portal.c:72-73 | a refused write (no commit) changes nothing |
| Nvs.Store.SetStr | components/config_portal/config_portal.c:67-78 | the status is the NVS rule for key and value length and space; the contents change exactly when it is OK |
| Nvs.Store.GetStr | components/config_portal/config_portal.c:80-88 | success iff the key exists and fits the buffer; otherwise NOT_FOUND or INVALID_LENGTH |
| Httpd.Daemon.Start | components/config_portal/config_portal.c:206-210 | `httpd_start` yields a fresh handle of a new running server, or NULL with nothing started |
| Httpd.Daemon.Stop | components/config_portal/config_portal.c:244-248 | `httpd_stop` is given a running server and stops exactly it; a handle that no longer runs may not be passed |
| ConfigPortal.SaveSetting | components/config_portal/config_portal.c:67-78 | writes to "config"; returns the write's status; a failed write keeps the old value |
| ConfigPortal.LoadSetting | components/config_portal/config_portal.c:80-88 | reads from "config"; succeeds iff the key exists and fits `max_len` |
| ConfigPortal.SourceDigit | components/config_portal/config_portal.c:38-41 | the case folding and digit arithmetic give the hexadecimal value |
| ConfigPortal.Unescaped | components/config_portal/config_portal.c:38-42 | `16*a + b` is the byte the two digits name, below 256 |
| ConfigPortal.UrlDecode | components/config_portal/config_portal.c:32-52 | the loop's output equals the decoding specification on every input |
| ConfigPortal.DecodeStep | components/config_portal/config_portal.c:34-49 | one turn of the loop writes the escaped byte, a space for '+', or the character itself, and moves past what it read |
| ConfigPortal.DecodedNoLonger | components/config_portal/config_portal.c:32-52 | decoding never lengthens, so `decoded[128]` holds any decoded `value[128]` |
| ConfigPortal.DecodePlain | components/config_portal/config_portal.c:47-49 | text without '%' and '+' is copied unchanged |
| ConfigPortal.DecodeExample | components/config_portal/config_portal.c:35-46 | "a%20b+c" decodes to "a b c" |
| ConfigPortal.DecodeBadEscape | components/config_portal/config_portal.c:35-49 | a '%' not followed by two hexadecimal digits is copied, and decoding goes on after it |
| ConfigPortal.DecodePlusIsSpace | components/config_portal/config_portal.c:44-46 | a '+' becomes a space, and decoding goes on after it |
| ConfigPortal.DecodeEscapeIsByte | components/config_portal/config_portal.c:35-43 | `%XX` becomes the byte 16·X + X, and decoding goes on after it |
| ConfigPortal.DecodeKeepsPrefix | components/config_portal/config_portal.c:47-49 | a plain prefix passes through and decoding continues after it |
| ConfigPortal.DecodeEncodedChar | components/config_portal/config_portal.c:35-49 | each form-encoded byte decodes back to that byte |
| ConfigPortal.DecodeEncode | components/config_portal/config_portal.c:32-52 | decoding inverts a browser's form encoding of any byte string |
| ConfigPortal.ScanPair | components/config_portal/config_portal.c:157 | an accepted pair has a 1..31-character key without '=' taken from the front, and a 1..127-character value without white space |
| ConfigPortal.ScanPairAccepts | components/config_portal/config_portal.c:157 | `key=value` is accepted, the value cut to 127 characters and spaces after '=' skipped |
| ConfigPortal.ScanPairOfKey | components/config_portal/config_portal.c:157 | after a 1..31-character key and '=', the piece is accepted exactly when a value follows, and the value is the `%127s` word |
| ConfigPortal.ScanPairRefuses | components/config_portal/config_portal.c:157 | no '=', an empty key, a key over 31 characters or nothing after '=' gives count < 2 |
| ConfigPortal.SavePost | components/config_portal/config_portal.c:143-182 | failed receive: 500 and no change; otherwise every accepted pair is saved in order, a restart iff "ssid" or "pass" was among them, else a 303 to "/?saved=1" |
| ConfigPortal.SavePieces | components/config_portal/config_portal.c:154-167 | the `strtok` loop saves every accepted pair in order and sets the flag iff a credential key was among them |
| ConfigPortal.SavePiece | components/config_portal/config_portal.c:156-165 | one piece: its pair, if it scans, is decoded and saved, and the flag says whether its key is "ssid" or "pass" |
| ConfigPortal.SavesConcat | components/config_portal/config_portal.c:155-167 | saving two runs of pairs is saving the first and then the second |
| ConfigPortal.RebootConcat | components/config_portal/config_portal.c:162-164 | two runs of pairs ask for a restart iff one of them does |
| ConfigPortal.AcceptedStep | components/config_portal/config_portal.c:154-167 | each `strtok` piece adds its pair, or nothing |
| ConfigPortal.SaveStep | components/config_portal/config_portal.c:157-164 | one more pair is one more write, and sets the reboot flag iff its key is a credential |
| ConfigPortal.TokensOfCString | components/config_portal/config_portal.c:150-154 | the pieces of the NUL-terminated body hold no NUL |
| ConfigPortal.AcceptedConcat | components/config_portal/config_portal.c:155-167 | the pairs of consecutive pieces concatenate |
| ConfigPortal.AcceptedOne | components/config_portal/config_portal.c:157 | a single piece yields its pair, or nothing |
| ConfigPortal.SkippedPieceChangesNothing | components/config_portal/config_portal.c:157 | a malformed piece is ignored without affecting the others |
| ConfigPortal.LastWriteWins | components/config_portal/config_portal.c:155-167 | a key ends with the decoded value of the last pair that names it |
| ConfigPortal.SavesKeepOthers | components/config_portal/config_portal.c:155-167 | keys no pair names, and other namespaces, read as before |
| ConfigPortal.SavesOnFullStore | components/config_portal/config_portal.c:72-73 | on a full partition the handler changes nothing |
| ConfigPortal.ExtraAmpersandsIgnored | components/config_portal/config_portal.c:150-166 | a body with a trailing `&`, or with `&&` where `&` would do, yields the same pairs |
| ConfigPortal.BodyRoundTrip | components/config_portal/config_portal.c:150-167 | the handler recovers exactly the pairs a form sends, in order |
| ConfigPortal.SendablePiece | components/config_portal/config_portal.c:154-157 | the `key=value` text of a sendable pair is one '&'-free, NUL-free piece that scans back to the pair |
| ConfigPortal.CredentialsFormReboots | components/config_portal/config_portal.c:162-173 | a form with ssid and pass yields both pairs and a restart |
| ConfigPortal.StoredStopsAtNul | components/config_portal/config_portal.c:158-160 | a `%00` in a value ends the stored string at the decoded text before it |
| ConfigPortal.IndexGet | components/config_portal/config_portal.c:98-128 | the page is the template with the stored colour (or "#23A55A") in place of the first placeholder, shorter than `buf[1024]` |
| ConfigPortal.RenderReplacesFirst | components/config_portal/config_portal.c:110-119 | only the first occurrence of the placeholder is replaced |
| ConfigPortal.RenderAfterPlainText | components/config_portal/config_portal.c:110-119 | text before the placeholder without '{' is kept and the rest follows the colour |
| ConfigPortal.RenderWithoutPlaceholder | components/config_portal/config_portal.c:120-123 | without a placeholder the template is copied, cut to 1023 characters |
| ConfigPortal.SettingsGet | components/config_portal/config_portal.c:186-203 | the JSON shows ssid, pass and led_color, each loaded or preset, and fits `buf[256]` |
| ConfigPortal.JsonFits | components/config_portal/config_portal.c:195-201 | the JSON never exceeds 255 characters, so `len` is what was written |
| ConfigPortal.JsonShowsDefaults | components/config_portal/config_portal.c:187-198 | when none of ssid, pass and led_color loads, the JSON shows empty credentials and "#23A55A" |
| ConfigPortal.Start | components/config_portal/config_portal.c:206-241 | a new server runs under a fresh handle, or NULL with nothing started |
| ConfigPortal.Stop | components/config_portal/config_portal.c:244-248 | NULL stops nothing; a running server's handle stops exactly that server |
| DiscordClock.LoadCredentials | main/discord_clock.c:105-118 | true iff "ssid" fits 32 bytes and "pass" fits 64 in "wifi", and then returns both |
| DiscordClock.SaveCredentials | main/discord_clock.c:96-103 | writes "ssid" then "pass" to "wifi", each on its own, errors ignored |
| DiscordClock.CredentialsRoundTrip | main/discord_clock.c:96-118 | credentials that fit the buffers are loaded back after saving |
| DiscordClock.LongPasswordNotFound | main/discord_clock.c:112-115 | a password of 64 characters or more is saved but never loaded |
| DiscordClock.ScanCredentials | main/discord_clock.c:53-55 | the ssid has at most 31 characters without '&'; the pass at most 63 without white space, and only after an ssid |
| DiscordClock.ScanSsid | main/discord_clock.c:55 | the `%31[^&]` field and what follows it keep those bounds |
| DiscordClock.ScanPass | main/discord_clock.c:55 | the `%63s` field is at most 63 characters without white space |
| DiscordClock.ScanCredentialsAccepts | main/discord_clock.c:55 | "ssid=S&pass=P" gives S and P raw, with no decoding |
| DiscordClock.ScanSsidAccepts | main/discord_clock.c:55 | a short ssid is read up to the '&' |
| DiscordClock.ScanPassAccepts | main/discord_clock.c:55 | the password is read up to white space or the end |
| DiscordClock.ScanCredentialsOtherBody | main/discord_clock.c:53-55 | a body not starting with "ssid=" leaves both fields empty |
| DiscordClock.ScanCredentialsLongSsid | main/discord_clock.c:55 | an ssid of 32 or more characters is cut to 31 and the password is not read |
| DiscordClock.SavePost | main/discord_clock.c:43-65 | failed receive: 500 and no change; otherwise the scanned fields, empty or not, are saved, and the notice and a restart follow |
| DiscordClock.ApStarted | main/discord_clock.c:152-174 | `start_ap` brings up the AP, neither connects nor calls back, keeps the link flag, and leaves the new handle (or NULL) in `server` |
| DiscordClock.StaStarted | main/discord_clock.c:176-190 | `start_sta` stops a running server but keeps its handle, keeps the flag, and ends with the station configuration |
| DiscordClock.OnEvent | main/discord_clock.c:124-150 | only a disconnect touches the server; got-IP sets the flag and calls back once; STA_START only connects; every other Wi-Fi event (an AP client joining or leaving, say) changes nothing and does nothing |
| DiscordClock.Booted | main/discord_clock.c:213-220 | credentials bring up the station and not the AP, keeping `server`; without them the AP comes up |
| DiscordClock.ApStartLeavesOneServer | main/discord_clock.c:152-174 | after `start_ap` exactly the new server runs, or none if it failed; the old one is stopped first |
| DiscordClock.OnEventKeepsOneServer | main/discord_clock.c:124-150 | every event keeps at most one running server, the one `server` names |
| DiscordClock.RunKeepsOneServer | main/discord_clock.c:124-174 | any sequence of events keeps at most one running server |
| DiscordClock.DisconnectFallsBack | main/discord_clock.c:131-135 | a disconnect clears the flag and brings up the AP, without a reconnect |
| DiscordClock.NotifiesOnGotIp | main/discord_clock.c:143-149 | an event calls back once iff it is a got-IP event |
| DiscordClock.RunNotifiesPerGotIp | main/discord_clock.c:143-149 | over any run, callbacks equal the got-IP events in number |
| DiscordClock.RunTracksLink | main/discord_clock.c:131-148 | `sta_connected` is true iff the latest got-IP came after the latest disconnect |
| DiscordClock.BootBranch | main/discord_clock.c:213-220 | from the initial globals, stored credentials bring up the station with them and otherwise the AP with one server; either way `OneServer` holds |
| DiscordClock.OnEventStopsOnlyLive | main/discord_clock.c:131-135 | an event stops only the running server that `server` names |
| DiscordClock.BootThenRunKeepsOneServer | main/discord_clock.c:199-220 | from the start of `app_main`, after boot and any events, at most one server runs and `server` names it, so no stop is of a dead handle |
| DiscordClock.StaStartLeavesStaleHandle | main/discord_clock.c:176-177 | `start_sta` with a running server would leave its handle stale (no longer running, `OneServer` broken), and the next `start_ap` would stop it again; `app_main` never calls it with a server |
| DiscordClock.WifiApp.constructor | main/discord_clock.c:121-122 | not connected, no server |
| DiscordClock.WifiApp.StopWebserver | main/discord_clock.c:89-93 | NULL stops nothing; a running server is stopped and recorded |
| DiscordClock.WifiApp.StartWebserver | main/discord_clock.c:68-87 | the handle is the new server's or NULL, as the transition function says |
| DiscordClock.WifiApp.StartAp | main/discord_clock.c:152-174 | the globals and effects follow `ApStarted`; one server at most |
| DiscordClock.WifiApp.StartSta | main/discord_clock.c:176-190 | the globals and effects follow `StaStarted`; they stay consistent when no server was running |
| DiscordClock.WifiApp.HandleEvent | main/discord_clock.c:124-150 | the globals and effects follow `OnEvent`; one server at most |
| DiscordClock.WifiApp.AppMain | main/discord_clock.c:213-220 | from the initial globals, boot follows `Booted` on the credentials loaded from NVS and leaves at most one running server |
| LedAnimation.Channel | components/led_animation/led_animation.c:44-50 | two hex digits give the byte 16·first + second |
| LedAnimation.ParseHexColor | components/led_animation/led_animation.c:40-57 | "#" and length 7 give one channel per pair; anything else gives (100,0,0) |
| LedAnimation.ParseHexDigits | components/led_animation/led_animation.c:42-50 | "#RRGGBB" in either case gives the bytes RR, GG, BB |
| LedAnimation.ParseFormat | components/led_animation/led_animation.c:40-50 | parsing the "#RRGGBB" form of any colour gives the colour back |
| LedAnimation.ChannelOfByteHex | components/led_animation/led_animation.c:48-50 | the two digits written for a byte convert back to that byte |
| LedAnimation.NegativeChannelWraps | components/led_animation/led_animation.c:48-50 | a pair like "-1" is signed for `strtol` and wraps to 255 in the cast |
| LedAnimation.DefaultColorIsDarkRed | components/led_animation/led_animation.c:7 | "#800000" parses to (128,0,0) |
| LedAnimation.InitColorDefault | components/led_animation/led_animation.c:23-27 | when the load fails the strip starts at (128,0,0) |
| LedAnimation.InitColorStored | components/led_animation/led_animation.c:23-27 | a stored "#RRGGBB" colour is the start colour |
| LedAnimation.BlinkAlternates | components/led_animation/led_animation.c:77-86 | two BLINK ticks show the colour once and black once, and restore `blink` |
| LedAnimation.FirstBlinkLights | components/led_animation/led_animation.c:61-83 | the first BLINK tick after start lights the strip |
| LedAnimation.SteadyFrames | components/led_animation/led_animation.c:65-75 | SOLID draws the colour and OFF black, neither touching `blink` |
| LedAnimation.LedAnimator.constructor | components/led_animation/led_animation.c:12-14 | no strip, OFF, black |
| LedAnimation.LedAnimator.Init | components/led_animation/led_animation.c:19-31 | keeps the strip, sets the start colour, and the task starts with `blink` clear |
| LedAnimation.LedAnimator.Set | components/led_animation/led_animation.c:33-36 | changes only the current animation |
| LedAnimation.LedAnimator.Step | components/led_animation/led_animation.c:63-87 | toggles `blink` only for BLINK and fills every pixel with the frame's colour |
| Scenarios.PortalSavesKeepCredentials | components/config_portal/config_portal.c:67-70 | no portal save changes the credentials the next boot reads from "wifi" |
| Scenarios.FirstBootOpensPortal | main/discord_clock.c:213-220 | an empty store boots into the AP with one running server |
| Scenarios.SimpleSaveThenBoot | main/discord_clock.c:43-65 | credentials posted to the application's form are the ones the next boot connects with |
| Scenarios.ScannedBody | main/discord_clock.c:50-55 | the NUL-terminated body of a simple form scans to its fields |
| Scenarios.StationBoot | main/discord_clock.c:213-216 | with credentials and no server, boot only brings the station up, changing no global |
| DiscordClock.StationConfig | main/discord_clock.c:183-185 | the station configuration holds `strncpy` prefixes of the credentials: at most 32 characters of the SSID and 64 of the password, and all of each that fits |
| Scenarios.StationConfigFits | main/discord_clock.c:184-185 | credentials that fit `ssid[32]` and `password[64]` are copied whole into the station configuration |
| Scenarios.PortalColorThenInit | components/led_animation/led_animation.c:23-27 | a colour saved through the portal is the LED colour after restart |
| Scenarios.EncodedColor | components/config_portal/config_portal.c:157-160 | the form encoding of a "#RRGGBB" colour fits the 127-character value field and is stored decoded as the colour text |

## Left out

- NVS flash initialisation and erase in `config_portal_init`, and NVS internals:
  pages, wear levelling, encryption. The partition is a map of namespaces plus a
  "full" flag. `nvs_open` failing on a missing read-only namespace has the same
  effect as a missing key, and is modelled that way.
- Handler registration, `HTTPD_DEFAULT_CONFIG`, `httpd_resp_*` framing and headers.
  A handler's answer is one `Response` value.
- `css_get_handler` and the embedded asset symbols. The index template is a
  parameter of `IndexGet`.
- The radio: `esp_netif_*`, `esp_wifi_init`, `set_mode`, `set_config`, `start` and
  `connect`. These are ghost `Effect`s with the configuration they carry, not a model
  of the Wi-Fi driver.
- `esp_restart` and `vTaskDelay`. A restart is the returned flag `restart`; the
  1-second delay is not modelled.
- `xTaskCreate` and the endless `led_task` loop with its 50 ms period. One pass is
  `LedAnimator.Step`.
- `led_strip_refresh`. The pixel array is the strip's buffer.
- Concurrency between the event task, the HTTP task and the LED task. Each
  operation is atomic in the model.
- Logging (`ESP_LOGI`).
- `connection_success_callback` does nothing but log. It is the `Notified` effect.
- Buffer overflows the code does not guard against, stated as preconditions
  instead of modelled:
  - a request body of at least 512 bytes (portal) or 128 bytes (application);
  - an index page longer than 1023 characters after substitution (`memcpy` into
    `buf[1024]`).
- `LibC.StrtolHex`: saturation at `LONG_MIN`/`LONG_MAX` is not modelled. The
  firmware only converts two-character strings, which cannot reach it.
- `DiscordClock.StationConfig`: `strncpy` into the fixed `ssid[32]` and
  `password[64]` arrays is modelled as taking a prefix. The missing terminator for
  a 32-byte SSID is not modelled.
- Station retries: the code has no retry counter and never retries after a
  disconnect, so there is nothing to model (see above).
- The settings JSON does not escape quotes or backslashes in stored values. The
  model produces the same unescaped text and does not claim it is valid JSON.
