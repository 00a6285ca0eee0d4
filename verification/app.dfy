/** The application around the three pieces: the LED state touched by the
    `/ledOn` and `/ledOff` handlers, the file handler, and the boot sequence
    that waits for the WiFi outcome before serving. */
module App {
  import opened Base
  import opened Http
  import StaticFiles
  import Wifi

  /** The LED: the level last written to the output pin, and the
      `s_led_state` variable (0 or 1) the handlers keep beside it. */
  datatype AppState = AppState(pinLevel: bool, ledState: uint8)

  /** The handler the server dispatched a GET to. Matching the request line
      against the registered URIs happens inside the server. */
  datatype Request = LedOnRequest | LedOffRequest | FileRequest(uri: CString)

  /** A handler's effect on the application state and what it sent. */
  datatype Handled = Handled(state: AppState, served: Served)

  /** `HTTPD_200`, sent as the body of the LED replies with its C length. */
  const StatusLine: CString := "200 OK"

  /** The LED pin level and variable agree: high exactly when the variable is 1. */
  predicate LedConsistent(s: AppState)
  {
    s.pinLevel <==> s.ledState == 1
  }

  /** `led_on_handler` / `led_off_handler`: drive the pin, record the level,
      reply 200. Nothing of the previous state survives. */
  function SetLed(s: AppState, on: bool): (r: Handled)
    ensures r.state.pinLevel == on && r.state.ledState == (if on then 1 else 0)
    ensures LedConsistent(r.state)
    ensures r.served == Served(Whole(StatusLine), EspOk)
  {
    Handled(AppState(on, if on then 1 else 0), Served(Whole(StatusLine), EspOk))
  }

  /** One request handled. */
  function Serve(fs: StaticFiles.FileSystem, s: AppState, req: Request): Handled
  {
    match req
    case LedOnRequest => SetLed(s, true)
    case LedOffRequest => SetLed(s, false)
    case FileRequest(uri) => Handled(s, StaticFiles.FileGet(fs, uri))
  }

  /** Requests handled one after another. */
  function ServeAll(fs: StaticFiles.FileSystem, s: AppState, reqs: seq<Request>): AppState
    decreases |reqs|
  {
    if reqs == [] then s else ServeAll(fs, Serve(fs, s, reqs[0]).state, reqs[1..])
  }

  /** The last LED command in `reqs`, if any: true for on. */
  function LastLedCommand(reqs: seq<Request>): Option<bool>
    decreases |reqs|
  {
    if reqs == [] then None
    else
      var last := reqs[|reqs| - 1];
      if last.LedOnRequest? then Some(true)
      else if last.LedOffRequest? then Some(false)
      else LastLedCommand(reqs[..|reqs| - 1])
  }

  /** Each LED handler is idempotent, and repeating it gives the same reply. */
  lemma SetLedIdempotent(s: AppState, on: bool)
    ensures SetLed(SetLed(s, on).state, on) == SetLed(s, on)
  {
  }

  /** File requests leave the LED alone, found or not; a missing file is a
      404 with ESP_FAIL. */
  lemma FileRequestKeepsLed(fs: StaticFiles.FileSystem, s: AppState, uri: CString)
    ensures Serve(fs, s, FileRequest(uri)).state == s
    ensures StaticFiles.ResolvePath(uri) !in fs ==>
              Serve(fs, s, FileRequest(uri)).served == Served(NotFound, EspFail)
  {
  }

  /** Handling `reqs` then one more request is handling the extended list. */
  lemma {:induction false} ServeAllSnoc(fs: StaticFiles.FileSystem, s: AppState, reqs: seq<Request>, r: Request)
    ensures ServeAll(fs, s, reqs + [r]) == Serve(fs, ServeAll(fs, s, reqs), r).state
    decreases |reqs|
  {
    if reqs == [] {
      assert [r][1..] == [];
    } else {
      assert (reqs + [r])[1..] == reqs[1..] + [r];
      ServeAllSnoc(fs, Serve(fs, s, reqs[0]).state, reqs[1..], r);
    }
  }

  /** Under sequential handling the last LED command wins and file requests
      in between change nothing: the LED state after any request sequence is
      fixed by its last LED command, or is the initial one if there is none. */
  lemma {:induction false} LastLedCommandWins(fs: StaticFiles.FileSystem, s: AppState, reqs: seq<Request>)
    ensures LastLedCommand(reqs).None? ==> ServeAll(fs, s, reqs) == s
    ensures LastLedCommand(reqs).Some? ==>
              var on := LastLedCommand(reqs).value;
              ServeAll(fs, s, reqs) == AppState(on, if on then 1 else 0)
    decreases |reqs|
  {
    if reqs != [] {
      var init := reqs[..|reqs| - 1];
      var last := reqs[|reqs| - 1];
      assert reqs == init + [last];
      ServeAllSnoc(fs, s, init, last);
      LastLedCommandWins(fs, s, init);
    }
  }

  /** `app_main` up to serving: the pin is reset (taken to read low), `wifi_init_sta`
      blocks until the event handler sets a bit and drives the pin high if
      the outcome is Connected, then `s_led_state` is set to 0. Returns None
      for both while the boot task is still blocked after `es`. */
  method Boot(maxRetry: int, es: seq<Wifi.Event>) returns (app: Option<AppState>, outcome: Option<Wifi.Outcome>)
    ensures app.None? <==> outcome.None?
    ensures outcome.None? <==> forall j :: 0 <= j <= |es| ==> !Wifi.Resolved(Wifi.Run(maxRetry, es[..j]))
    ensures outcome.Some? ==> outcome.value != Wifi.Unexpected
    ensures app.Some? ==>
              && app.value.ledState == 0
              && (app.value.pinLevel <==> outcome.value == Wifi.Connected)
              && exists k :: Wifi.FirstResolution(maxRetry, es, k)
                             && (app.value.pinLevel <==> es[k - 1] == Wifi.GotIp)
  {
    var pin := false;
    var k := Wifi.AwaitResolution(maxRetry, es);
    if k.None? {
      return None, None;
    }
    var bits := Wifi.Bits(Wifi.Run(maxRetry, es[..k.value]));
    var o := Wifi.Decode(bits);
    Wifi.WakeOutcome(maxRetry, es, k.value);
    if o == Wifi.Connected {
      pin := true;
    }
    return Some(AppState(pin, 0)), Some(o);
  }
}
