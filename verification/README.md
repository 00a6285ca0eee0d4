# MushBox firmware core, modelled in Dafny

This project models the logic of the ESP-IDF firmware in `MushRoomApp/main/main.c`:
a WiFi station that retries a bounded number of times, a static-file HTTP handler
that serves files from the SPIFFS mount in 1024-byte chunks, and two handlers that
switch an LED. Vendor-library calls are replaced by their observable effects:
`esp_wifi_connect` calls, event-group bits, chunks sent, 404 sent, pin level.

Files:

- `base.dfy` (`Base`): `uint8`/`byte`, `CString` (a string without NUL), `Option`, `EspErr`.
- `wifi.dfy` (`Wifi`): the event handler as a pure step over a state record
  (retry counter, connected bit, fail bit), runs over event sequences, a reference
  definition of the counter, the wait for either bit, and the decode of the bits.
- `cstrings.dfy` (`CStrings`): `strstr` (as a scan and as a positional definition,
  proved equal) and `snprintf` into a bounded buffer.
- `static_files.dfy` (`StaticFiles`): URI to path, content type, the chunking of a
  file, the read/send loop, and the whole handler including the not-found branch.
- `http.dfy` (`Http`): the reply a handler sends.
- `app.dfy` (`App`): LED state, request handling over a sequence of requests, boot.

The configured retry maximum (`CONFIG_ESP_MAXIMUM_RETRY`, a Kconfig `int`) is a
parameter `maxRetry` of any integer value; the counter bound is `Cap(maxRetry)`,
which is `maxRetry` clamped below at 0. Since the counter never exceeds that bound,
the C `int` counter cannot overflow and is modelled as an unbounded integer.

Three behaviours of the code that a reader might not expect, and that the model keeps:

- The content type is chosen by substring search (`strstr`), not by suffix: a path
  such as `/page.html.png` is served as `text/html` (`StaticFiles.HtmlInsideName`).
- The LED handlers do not send an empty body: they pass the `HTTPD_200` string
  ("200 OK" in ESP-IDF) with its C length, so the body is `200 OK` (`App.StatusLine`).
- After a successful connection, `wifi_init_sta` drives the LED pin high but does not
  set `s_led_state`, and `app_main` then sets `s_led_state` to 0. The model keeps the
  pin level and the variable apart, so after boot the pin can be high while the
  variable is 0 (`App.Boot`); the first LED request makes them agree again.

## Model

| member | source | states |
|---|---|---|
| Wifi.Step | MushRoomApp/main/main.c:264-284 | One event keeps the counter within 0..Cap, never clears a bit and never sets both bits; STA_START issues a connect and changes nothing; a disconnect below the maximum issues exactly one connect and adds exactly 1 to the counter with the bits unchanged; a disconnect at or above it sets the fail bit, issues no connect and leaves the counter; GOT_IP resets the counter to 0 and sets the connected bit without a connect; other WiFi events do nothing |
| Wifi.RunRetries | MushRoomApp/main/main.c:269-281 | From boot, after any event sequence the counter equals the number of disconnects since the last IP acquisition, saturated at the maximum; hence it always lies in 0..Cap |
| Wifi.RunConnected | MushRoomApp/main/main.c:278-282 | After any event sequence the connected bit is set exactly when GOT_IP occurred in it |
| Wifi.RunFailed | MushRoomApp/main/main.c:269-276 | After any event sequence the fail bit is set exactly when some disconnect arrived while the disconnects since the last reset had already reached the maximum |
| Wifi.RunSticky | MushRoomApp/main/main.c:275-282 | Over any event sequence a bit set after some prefix is still set at the end: the handler only sets bits and never clears them |
| Wifi.GivesUpAfterMaxDisconnects | MushRoomApp/main/main.c:269-276 | After any history followed by at least the maximum number of consecutive disconnects, the next disconnect sets the fail bit and issues no connect |
| Wifi.RetriesWithinBound | MushRoomApp/main/main.c:267-273 | From boot, STA_START followed by n disconnects with n within the maximum leaves the counter at n, both bits clear, and n + 1 connects issued |
| Wifi.ConnectWithinRetries | MushRoomApp/main/main.c:267-282 | A connection that succeeds after n disconnects, n within the maximum, ends with the connected bit set, the fail bit clear, the counter 0, and every disconnect retried |
| Wifi.ExhaustedRetriesFail | MushRoomApp/main/main.c:267-276 | With no success, more disconnects than the bound Cap (the maximum, or 0 when it is negative) end with the fail bit set, the connected bit clear, the counter at Cap, and exactly Cap + 1 connects issued in total; with a negative maximum the first disconnect fails |
| Wifi.AwaitResolution | MushRoomApp/main/main.c:331-337 | The boot task wakes at the first event after which either bit is set, or stays blocked if no prefix sets one |
| Wifi.DecodeBits | MushRoomApp/main/main.c:339-350 | The decode gives Connected exactly when the connected bit is set, even with the fail bit also set; Failed exactly when only the fail bit is set; the unexpected branch exactly when neither is |
| Wifi.WakeOutcome | MushRoomApp/main/main.c:333-350 | At the moment the boot task wakes exactly one bit is set, so the outcome is Connected exactly when the waking event was GOT_IP and Failed exactly when it was a disconnect |
| CStrings.ContainsIff | MushRoomApp/main/main.c:150-155 | The left-to-right scan of `strstr` finds the needle exactly when it occurs at some offset of the haystack |
| CStrings.StrStr | MushRoomApp/main/main.c:150-155 | `strstr` returns the leftmost offset at which the needle occurs, and NULL exactly when it occurs nowhere |
| CStrings.Snprintf | MushRoomApp/main/main.c:144-146 | Formatting into a buffer of `size` bytes keeps a prefix of the text of at most size - 1 characters, the whole text when it fits, and exactly size - 1 characters when it does not |
| StaticFiles.ResolvePath | MushRoomApp/main/main.c:141-147 | The resolved path always fits the 1024-byte buffer with its NUL |
| StaticFiles.ResolveRoot | MushRoomApp/main/main.c:143-144 | The URI `/` resolves to `/spiffs/index.html` |
| StaticFiles.ResolveOther | MushRoomApp/main/main.c:145-147 | Any other URI resolves to a prefix of `/spiffs` followed by the URI, of length min(7 + length of URI, 1023), always starting with `/spiffs`, and equal to the whole concatenation when the URI has at most 1016 characters |
| StaticFiles.ResolveKeepsDotDot | MushRoomApp/main/main.c:146 | `/../secret` resolves to `/spiffs/../secret`: no normalisation is applied |
| StaticFiles.ContentTypeChoice | MushRoomApp/main/main.c:149-156 | The type is text/html exactly when `.html` occurs in the path; text/css exactly when `.css` occurs and `.html` does not; text/javascript exactly when `.js` occurs and neither earlier marker does; text/plain exactly when none occurs |
| StaticFiles.IndexIsHtml | MushRoomApp/main/main.c:143-151 | The URI `/` is served as text/html |
| StaticFiles.LogoIsPlain | MushRoomApp/main/main.c:149-156 | `/logo.png` is served as text/plain |
| StaticFiles.StyleIsCss | MushRoomApp/main/main.c:152-153 | `/style.css` is served as text/css |
| StaticFiles.W3IsCss | MushRoomApp/main/main.c:152-153 | `/w3.css` is served as text/css |
| StaticFiles.ScriptIsJavascript | MushRoomApp/main/main.c:154-155 | `/script.js` is served as text/javascript |
| StaticFiles.CssBeatsJs | MushRoomApp/main/main.c:150-155 | Any path that contains both `.css` and `.js` but no `.html` is served as text/css, wherever the two markers stand |
| StaticFiles.JsThenCssIsCss | MushRoomApp/main/main.c:150-155 | `/a.js.css` is served as text/css |
| StaticFiles.HtmlInsideName | MushRoomApp/main/main.c:150-151 | `/page.html.png` is served as text/html: the marker is searched anywhere, not as a suffix |
| StaticFiles.ReadLength | MushRoomApp/main/main.c:167-169 | A read of the 1024-byte buffer returns at most 1024 bytes, never past the end of the file, and 0 exactly at the end |
| StaticFiles.ChunksAreChunking | MushRoomApp/main/main.c:167-171 | The chunks of a file are each 1..1024 bytes, all but the last exactly 1024, and concatenate to the file |
| StaticFiles.ChunksUnique | MushRoomApp/main/main.c:167-171 | Any cut of the file into such pieces is the one the read loop produces |
| StaticFiles.StreamFile | MushRoomApp/main/main.c:167-174 | The read/send loop sends the file's chunks in order and then one empty chunk; the chunks before the empty one concatenate to the file |
| StaticFiles.FileGet | MushRoomApp/main/main.c:139-177 | A path that cannot be opened gets a 404, no body and ESP_FAIL, and only then; an existing file gets ESP_OK, the content type of its path, chunks of 1..1024 bytes that concatenate to its bytes, and a final empty chunk |
| StaticFiles.HandleFileGet | MushRoomApp/main/main.c:139-177 | The handler with its loop produces exactly the reply FileGet describes, and its chunks concatenate to the file |
| App.SetLed | MushRoomApp/main/main.c:179-191 | `/ledOn` and `/ledOff` drive the pin to 1 or 0, set `s_led_state` to 1 or 0 so the two agree, and reply 200 with body `200 OK` and ESP_OK |
| App.SetLedIdempotent | MushRoomApp/main/main.c:179-191 | Repeating an LED request leaves the same state and sends the same reply |
| App.FileRequestKeepsLed | MushRoomApp/main/main.c:160-165 | A file request, found or not, leaves the LED state unchanged; a missing file gets a 404 and ESP_FAIL |
| App.LastLedCommandWins | MushRoomApp/main/main.c:179-191 | After any sequence of requests handled one at a time, the LED state is the one set by the last LED request, or the initial one if there was none |
| App.Boot | MushRoomApp/main/main.c:363-377 | Boot stays blocked exactly while no event prefix sets a bit; once woken the outcome is never the unexpected branch, `s_led_state` is 0, and the pin is high exactly when the outcome is Connected, that is, when the first event to set a bit was GOT_IP |

## Left out

- NVS initialisation with its erase-and-retry, netif and event-loop creation, the WiFi configuration and the authentication and SAE macros (main.c:286-329, 353-361): foreign library calls with no logic of their own.
- `initi_web_page_buffer` (main.c:93-137): mounting SPIFFS and reading every file into a buffer that is freed unused; nothing observable remains. The mounted file system is the `FileSystem` map.
- `setup_server` and the URI table (main.c:193-262): matching a request line to a registered URI, and the 404 for unregistered paths, happen inside `esp_http_server`, which is not part of this model. `App.Request` names the handler the server chose.
- FreeRTOS tasks, blocking and callback delivery: the event handler is a pure step over a sequence of events. `xEventGroupWaitBits` is modelled by the bits as they stand right after the event that set the first one.
- GPIO driver calls: the pin is a boolean. The button pin is configured but never read.
- App.Boot: the LED pin is assumed to read low after `gpio_reset_pin` until `wifi_init_sta` drives it; the source writes no level before that, so "pin high exactly when Connected" rests on this power-on level in the Failed case.
- Logging.
- StaticFiles.ReadLength: `fread` is assumed to fill the buffer until the end of the file; read errors and short reads from the driver are not modelled.
- StaticFiles.FileGet: the content type set before a 404 is not recorded, since the 404 page is produced by the server. Failures returned by `httpd_resp_send_chunk` are not modelled; the handler ignores them.
- App.SetLed: the return value of `httpd_resp_send` is modelled as ESP_OK; transport failures are not modelled.
- The `esp_wifi_connect` return value is ignored by the source and not modelled.
