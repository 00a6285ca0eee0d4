/** The WiFi station connection manager: the retry/flag state machine driven by
    the networking stack's events, and the decode of the event-group bits that
    the boot task performs once it is woken. */
module Wifi {
  import opened Base

  /** The events delivered to the handler. It is registered for every
      WIFI_EVENT id and for IP_EVENT_STA_GOT_IP only, so any other WiFi event
      reaches it and is ignored. */
  datatype Event = StaStart | StaDisconnected | GotIp | OtherWifiEvent

  /** The handler's persistent state: the retry counter and the two bits of
      the event group (connected = BIT0, failed = BIT1). */
  datatype WifiState = WifiState(retries: int, connected: bool, failed: bool)

  /** Boot state: the counter is statically 0 and the fresh event group is clear. */
  const Init := WifiState(0, false, false)

  /** One handler invocation: the state after it, and whether it called
      `esp_wifi_connect`. */
  datatype Transition = Transition(next: WifiState, connect: bool)

  /** The retry bound clamped below at zero: the largest value the counter can
      reach under a configured maximum that may be any C int. */
  function Cap(maxRetry: int): nat
  {
    if maxRetry < 0 then 0 else maxRetry
  }

  /** The counter stays within 0..Cap(maxRetry). */
  ghost predicate Inv(maxRetry: int, s: WifiState)
  {
    0 <= s.retries <= Cap(maxRetry)
  }

  /** Event-group bits are only ever set, never cleared. */
  ghost predicate Sticky(s: WifiState, s': WifiState)
  {
    (s.connected ==> s'.connected) && (s.failed ==> s'.failed)
  }

  /** Either bit of the event group is set, which is what the boot task waits for. */
  predicate Resolved(s: WifiState)
  {
    s.connected || s.failed
  }

  /** `event_handler`: one event applied to the state. */
  function Step(maxRetry: int, s: WifiState, e: Event): (t: Transition)
    ensures Inv(maxRetry, s) ==> Inv(maxRetry, t.next)
    ensures Sticky(s, t.next)
    // a single event never sets both bits
    ensures !(t.next.connected && !s.connected && t.next.failed && !s.failed)
    // station start: connect, nothing else changes
    ensures e == StaStart ==> t.connect && t.next == s
    // disconnect below the bound: one retry, counter + 1, bits untouched
    ensures e == StaDisconnected && s.retries < maxRetry ==>
              t.connect && t.next.retries == s.retries + 1
              && t.next.connected == s.connected && t.next.failed == s.failed
    // disconnect at or above the bound: give up, counter untouched
    ensures e == StaDisconnected && s.retries >= maxRetry ==>
              !t.connect && t.next.failed && t.next.retries == s.retries
              && t.next.connected == s.connected
    // IP acquired: counter reset, connected bit set, no connect
    ensures e == GotIp ==>
              !t.connect && t.next.retries == 0 && t.next.connected && t.next.failed == s.failed
    ensures e == OtherWifiEvent ==> !t.connect && t.next == s
  {
    match e
    case StaStart => Transition(s, true)
    case StaDisconnected =>
      if s.retries < maxRetry then Transition(s.(retries := s.retries + 1), true)
      else Transition(s.(failed := true), false)
    case GotIp => Transition(s.(retries := 0, connected := true), false)
    case OtherWifiEvent => Transition(s, false)
  }

  /** The state after handling `es` in order, starting from boot. */
  function Run(maxRetry: int, es: seq<Event>): WifiState
    decreases |es|
  {
    if es == [] then Init
    else Step(maxRetry, Run(maxRetry, es[..|es| - 1]), es[|es| - 1]).next
  }

  /** How many times `esp_wifi_connect` is called while handling `es`. */
  function Connects(maxRetry: int, es: seq<Event>): nat
    decreases |es|
  {
    if es == [] then 0
    else
      var p := es[..|es| - 1];
      Connects(maxRetry, p) + (if Step(maxRetry, Run(maxRetry, p), es[|es| - 1]).connect then 1 else 0)
  }

  /** Reference definition of the counter: disconnects seen since the last
      IP acquisition (or since boot). */
  function SinceReset(es: seq<Event>): nat
    decreases |es|
  {
    if es == [] then 0
    else if es[|es| - 1] == GotIp then 0
    else if es[|es| - 1] == StaDisconnected then SinceReset(es[..|es| - 1]) + 1
    else SinceReset(es[..|es| - 1])
  }

  /** `n` copies of `e`. */
  function Repeat(e: Event, n: nat): (r: seq<Event>)
    ensures |r| == n
    ensures forall i :: 0 <= i < n ==> r[i] == e
  {
    if n == 0 then [] else Repeat(e, n - 1) + [e]
  }

  /** The counter equals the disconnects since the last reset, saturated at
      the retry bound. In particular it stays in 0..Cap(maxRetry). */
  lemma {:induction false} RunRetries(maxRetry: int, es: seq<Event>)
    ensures Run(maxRetry, es).retries == Min(Cap(maxRetry), SinceReset(es))
    ensures Inv(maxRetry, Run(maxRetry, es))
    decreases |es|
  {
    if es != [] {
      RunRetries(maxRetry, es[..|es| - 1]);
    }
  }

  /** The connected bit is set exactly when an IP was acquired at some point. */
  lemma {:induction false} RunConnected(maxRetry: int, es: seq<Event>)
    ensures Run(maxRetry, es).connected <==> GotIp in es
    decreases |es|
  {
    if es != [] {
      var p := es[..|es| - 1];
      RunConnected(maxRetry, p);
      assert es == p + [es[|es| - 1]];
    }
  }

  /** The fail bit is set exactly when some disconnect arrived while the
      disconnects since the last reset had already reached the bound. */
  lemma {:induction false} RunFailed(maxRetry: int, es: seq<Event>)
    ensures Run(maxRetry, es).failed <==>
              exists i :: 0 <= i < |es| && es[i] == StaDisconnected && SinceReset(es[..i]) >= maxRetry
    decreases |es|
  {
    if es != [] {
      var n := |es| - 1;
      var p := es[..n];
      RunFailed(maxRetry, p);
      RunRetries(maxRetry, p);
      assert es[..n] == p;
      forall i | 0 <= i < n
        ensures es[i] == p[i] && es[..i] == p[..i]
      {
      }
      if Run(maxRetry, es).failed {
        if !Run(maxRetry, p).failed {
          assert es[n] == StaDisconnected && SinceReset(es[..n]) >= maxRetry;
        } else {
          var i :| 0 <= i < |p| && p[i] == StaDisconnected && SinceReset(p[..i]) >= maxRetry;
          assert es[i] == StaDisconnected && SinceReset(es[..i]) >= maxRetry;
        }
      } else {
        forall i | 0 <= i < |es|
          ensures !(es[i] == StaDisconnected && SinceReset(es[..i]) >= maxRetry)
        {
          if i < n {
            assert es[..i] == p[..i];
          }
        }
      }
    }
  }

  /** Over a whole run the bits are never cleared: whatever is set after a
      prefix of the events is still set at the end. */
  lemma {:induction false} RunSticky(maxRetry: int, es: seq<Event>, i: nat)
    requires i <= |es|
    ensures Sticky(Run(maxRetry, es[..i]), Run(maxRetry, es))
    decreases |es| - i
  {
    if i < |es| {
      var p := es[..|es| - 1];
      assert es[..i] == p[..i];
      RunSticky(maxRetry, p, i);
    } else {
      assert es[..i] == es;
    }
  }

  /** Appending `k` disconnects adds `k` to the disconnects since reset. */
  lemma {:induction false} SinceResetDisconnects(es: seq<Event>, k: nat)
    ensures SinceReset(es + Repeat(StaDisconnected, k)) == SinceReset(es) + k
    decreases k
  {
    if k == 0 {
      assert es + Repeat(StaDisconnected, 0) == es;
    } else {
      SinceResetDisconnects(es, k - 1);
      var q := es + Repeat(StaDisconnected, k);
      assert q[..|q| - 1] == es + Repeat(StaDisconnected, k - 1);
    }
  }

  /** Whatever happened before, once at least `maxRetry` further consecutive
      disconnects have been absorbed, the next disconnect sets the fail bit
      and issues no connect. */
  lemma GivesUpAfterMaxDisconnects(maxRetry: int, es: seq<Event>, k: nat)
    requires k >= maxRetry
    ensures Run(maxRetry, es + Repeat(StaDisconnected, k + 1)).failed
    ensures Connects(maxRetry, es + Repeat(StaDisconnected, k + 1))
            == Connects(maxRetry, es + Repeat(StaDisconnected, k))
  {
    var p := es + Repeat(StaDisconnected, k);
    var q := es + Repeat(StaDisconnected, k + 1);
    assert q[..|q| - 1] == p;
    SinceResetDisconnects(es, k);
    RunRetries(maxRetry, p);
  }

  /** Starting from boot, `n` disconnects within the bound each issue a retry
      and leave the bits clear. */
  lemma {:induction false} RetriesWithinBound(maxRetry: int, n: nat)
    requires n <= maxRetry
    ensures var s := Run(maxRetry, [StaStart] + Repeat(StaDisconnected, n));
            s.retries == n && !s.connected && !s.failed
    ensures Connects(maxRetry, [StaStart] + Repeat(StaDisconnected, n)) == n + 1
    decreases n
  {
    var q := [StaStart] + Repeat(StaDisconnected, n);
    if n == 0 {
      assert q == [StaStart];
      assert q[..0] == [];
    } else {
      RetriesWithinBound(maxRetry, n - 1);
      assert q[..|q| - 1] == [StaStart] + Repeat(StaDisconnected, n - 1);
    }
  }

  /** A connection that succeeds within the retry budget ends Connected with
      the fail bit clear and the counter reset; every disconnect was retried. */
  lemma ConnectWithinRetries(maxRetry: int, n: nat)
    requires n <= maxRetry
    ensures var s := Run(maxRetry, [StaStart] + Repeat(StaDisconnected, n) + [GotIp]);
            s.connected && !s.failed && s.retries == 0
    ensures Connects(maxRetry, [StaStart] + Repeat(StaDisconnected, n) + [GotIp]) == n + 1
  {
    var p := [StaStart] + Repeat(StaDisconnected, n);
    var q := p + [GotIp];
    assert q[..|q| - 1] == p;
    RetriesWithinBound(maxRetry, n);
  }

  /** With no success, more disconnects than the retry bound end Failed
      after exactly Cap(maxRetry) retries beyond the initial connect. With a
      negative maximum the first disconnect already fails. */
  lemma ExhaustedRetriesFail(maxRetry: int, n: nat)
    requires Cap(maxRetry) < n
    ensures var s := Run(maxRetry, [StaStart] + Repeat(StaDisconnected, n));
            s.failed && !s.connected && s.retries == Cap(maxRetry)
    ensures Connects(maxRetry, [StaStart] + Repeat(StaDisconnected, n)) == Cap(maxRetry) + 1
    decreases n
  {
    var q := [StaStart] + Repeat(StaDisconnected, n);
    var p := [StaStart] + Repeat(StaDisconnected, n - 1);
    assert q[..|q| - 1] == p;
    if n - 1 == Cap(maxRetry) {
      if maxRetry >= 0 {
        RetriesWithinBound(maxRetry, n - 1);
      } else {
        assert p == [StaStart];
        assert p[..0] == [];
        assert Run(maxRetry, p) == Init;
        assert Connects(maxRetry, p) == 1;
      }
    } else {
      ExhaustedRetriesFail(maxRetry, n - 1);
    }
  }

  /** `k` events in, a bit has just been set for the first time. */
  ghost predicate FirstResolution(maxRetry: int, es: seq<Event>, k: nat)
  {
    && 1 <= k <= |es|
    && Resolved(Run(maxRetry, es[..k]))
    && forall j :: 0 <= j < k ==> !Resolved(Run(maxRetry, es[..j]))
  }

  /** `xEventGroupWaitBits` on BIT0 | BIT1 without clearing: the boot task is
      blocked while neither bit is set and wakes after the first event that
      sets one. Returns how many events had been handled when it woke, or
      None if the events run out first (it stays blocked). */
  method AwaitResolution(maxRetry: int, es: seq<Event>) returns (k: Option<nat>)
    ensures k.Some? ==> FirstResolution(maxRetry, es, k.value)
    ensures k.None? ==> forall j :: 0 <= j <= |es| ==> !Resolved(Run(maxRetry, es[..j]))
  {
    var s := Init;
    var i := 0;
    assert es[..0] == [];
    while i < |es|
      invariant 0 <= i <= |es|
      invariant s == Run(maxRetry, es[..i])
      invariant forall j :: 0 <= j <= i ==> !Resolved(Run(maxRetry, es[..j]))
    {
      assert es[..i + 1][..i] == es[..i];
      s := Step(maxRetry, s, es[i]).next;
      i := i + 1;
      if Resolved(s) {
        return Some(i);
      }
    }
    return None;
  }

  /** The event-group bits for a state. */
  const ConnectedBit: bv32 := 1  // BIT0
  const FailBit: bv32 := 2       // BIT1

  function Bits(s: WifiState): bv32
  {
    (if s.connected then ConnectedBit else 0) | (if s.failed then FailBit else 0)
  }

  /** What `wifi_init_sta` concludes from the bits it was woken with. */
  datatype Outcome = Connected | Failed | Unexpected

  /** The decode in `wifi_init_sta`: the connected bit wins over the fail bit. */
  function Decode(bits: bv32): (o: Outcome)
  {
    if bits & ConnectedBit != 0 then Connected
    else if bits & FailBit != 0 then Failed
    else Unexpected
  }

  /** The decode recovers the handler's flags: Connected whenever the
      connected bit is set (even with the fail bit), Failed when only the fail
      bit is set, Unexpected when neither is. */
  lemma DecodeBits(s: WifiState)
    ensures Decode(Bits(s)) == Connected <==> s.connected
    ensures Decode(Bits(s)) == Failed <==> !s.connected && s.failed
    ensures Decode(Bits(s)) == Unexpected <==> !Resolved(s)
  {
  }

  /** When the boot task wakes, exactly one bit is set, so the outcome is
      never Unexpected and it is Connected exactly when the waking event was
      the IP acquisition. */
  lemma WakeOutcome(maxRetry: int, es: seq<Event>, k: nat)
    requires FirstResolution(maxRetry, es, k)
    ensures Run(maxRetry, es[..k]).connected != Run(maxRetry, es[..k]).failed
    ensures Decode(Bits(Run(maxRetry, es[..k]))) == Connected <==> es[k - 1] == GotIp
    ensures Decode(Bits(Run(maxRetry, es[..k]))) == Failed <==> es[k - 1] == StaDisconnected
  {
    assert es[..k][..k - 1] == es[..k - 1];
    DecodeBits(Run(maxRetry, es[..k]));
  }
}
