/** The fixed-window rate limiter. Times are in nanoseconds. */
module RateLimit {
  import opened ByteOrder
  import opened Options

  const MINUTE := 60_000_000_000

  datatype Window = Window(start: int, count: int)

  /** A key without an entry reads as a window at the zero time, which is a whole minute. */
  const ZERO_WINDOW := Window(-62_135_596_800_000_000_000, 0)

  type Windows = map<Bytes, Window>

  function WindowOf(now: int): int
  {
    now - now % MINUTE
  }

  function StateOf(ws: Windows, key: Bytes): Window
  {
    if key in ws then ws[key] else ZERO_WINDOW
  }

  function Current(w: Window, now: int): Window
  {
    if w.start != WindowOf(now) then Window(WindowOf(now), 0) else w
  }

  /** The decision for one key and the window it leaves. */
  function Decide(limit: int, w: Window, now: int): (Window, bool)
  {
    var c := Current(w, now);
    if c.count >= limit then (c, false) else (c.(count := c.count + 1), true)
  }

  function Step(limit: int, ws: Windows, key: Bytes, now: int): (Windows, bool)
  {
    if limit <= 0 then (ws, true) else
      var (w, ok) := Decide(limit, StateOf(ws, key), now);
      (ws[key := w], ok)
  }

  class Limiter {
    const limit: int
    var windows: Windows

    constructor (limit: int)
      ensures this.limit == limit && windows == map[]
    {
      this.limit := limit;
      this.windows := map[];
    }

    method Allow(key: Bytes, now: int) returns (ok: bool)
      modifies this
      ensures (windows, ok) == Step(limit, old(windows), key, now)
    {
      if limit <= 0 {
        return true;
      }
      var window := now - now % MINUTE;
      var state := if key in windows then windows[key] else ZERO_WINDOW;
      if state.start != window {
        state := Window(window, 0);
      }
      if state.count >= limit {
        windows := windows[key := state];
        return false;
      }
      state := state.(count := state.count + 1);
      windows := windows[key := state];
      return true;
    }
  }

  /***** Runs *****/

  datatype Call = Call(key: Bytes, now: int)

  function After(limit: int, calls: seq<Call>): Windows
  {
    if calls == [] then map[] else
      var last := calls[|calls| - 1];
      Step(limit, After(limit, calls[..|calls| - 1]), last.key, last.now).0
  }

  /** Whether the last call of a run is allowed. */
  predicate LastAllowed(limit: int, calls: seq<Call>)
    requires calls != []
  {
    var last := calls[|calls| - 1];
    Step(limit, After(limit, calls[..|calls| - 1]), last.key, last.now).1
  }

  predicate InMinute(c: Call, key: Bytes, minute: int)
  {
    c.key == key && WindowOf(c.now) == minute
  }

  /** The calls of a key in a minute. */
  function Calls(calls: seq<Call>, key: Bytes, minute: int): nat
  {
    if calls == [] then 0 else
      Calls(calls[..|calls| - 1], key, minute) + if InMinute(calls[|calls| - 1], key, minute) then 1 else 0
  }

  /** The calls of a key in a minute that were allowed. */
  function Allowed(limit: int, calls: seq<Call>, key: Bytes, minute: int): nat
  {
    if calls == [] then 0 else
      Allowed(limit, calls[..|calls| - 1], key, minute)
      + if InMinute(calls[|calls| - 1], key, minute) && LastAllowed(limit, calls) then 1 else 0
  }

  predicate Forward(calls: seq<Call>)
  {
    forall i, j | 0 <= i <= j < |calls| :: calls[i].now <= calls[j].now
  }

  function Smaller(a: int, b: int): int { if a <= b then a else b }

  /** A window begins at a whole minute of sixty thousand million nanoseconds, at most one minute ago. */
  lemma WindowIsMinute(now: int)
    ensures WindowOf(now) % 60_000_000_000 == 0
    ensures WindowOf(now) <= now < WindowOf(now) + 60_000_000_000
  {
  }

  /** Without a positive limit every call is allowed, and nothing is remembered. */
  lemma {:induction false} NoLimit(limit: int, calls: seq<Call>, key: Bytes, minute: int)
    requires limit <= 0
    ensures Allowed(limit, calls, key, minute) == Calls(calls, key, minute)
    ensures After(limit, calls) == map[]
  {
    if calls == [] {
    } else {
      NoLimit(limit, calls[..|calls| - 1], key, minute);
    }
  }

  /***** Stretches *****/

  /** The minute of a key's last call. */
  function LastMinute(calls: seq<Call>, key: Bytes): Option<int>
  {
    if calls == [] then None
    else if calls[|calls| - 1].key == key then Some(WindowOf(calls[|calls| - 1].now))
    else LastMinute(calls[..|calls| - 1], key)
  }

  /** How many of a key's last calls, in a row, were in the same minute. */
  function Stretch(calls: seq<Call>, key: Bytes): nat
  {
    if calls == [] then 0 else
      var front, last := calls[..|calls| - 1], calls[|calls| - 1];
      if last.key != key then Stretch(front, key)
      else if LastMinute(front, key) == Some(WindowOf(last.now)) then Stretch(front, key) + 1
      else 1
  }

  /** How many separate stretches of a key's own calls fall in a minute. */
  function Visits(calls: seq<Call>, key: Bytes, minute: int): nat
  {
    if calls == [] then 0 else
      var front, last := calls[..|calls| - 1], calls[|calls| - 1];
      Visits(front, key, minute)
      + if InMinute(last, key, minute) && LastMinute(front, key) != Some(minute) then 1 else 0
  }

  /** The window table remembers a key's current stretch, up to the limit. */
  ghost predicate Remembers(limit: int, calls: seq<Call>, key: Bytes)
  {
    var ws := After(limit, calls);
    && (key in ws <==> LastMinute(calls, key).Some?)
    && (key in ws ==> ws[key] == Window(LastMinute(calls, key).value, Smaller(limit, Stretch(calls, key))))
    && (key in ws ==> Stretch(calls, key) >= 1)
  }

  lemma {:induction false} RunRemembers(limit: int, calls: seq<Call>, key: Bytes)
    requires limit > 0
    ensures Remembers(limit, calls, key)
  {
    if calls == [] {
    } else {
      RunRemembers(limit, calls[..|calls| - 1], key);
    }
  }

  /** The last call of a key is allowed unless its stretch had already reached the limit. */
  lemma AllowedByStretch(limit: int, calls: seq<Call>)
    requires limit > 0 && calls != []
    ensures LastAllowed(limit, calls) <==> Stretch(calls, calls[|calls| - 1].key) <= limit
  {
    RunRemembers(limit, calls[..|calls| - 1], calls[|calls| - 1].key);
  }

  /** A stretch is part of the calls of its minute, and all of them only on the first visit. */
  ghost predicate StretchCounts(calls: seq<Call>, key: Bytes, minute: int)
  {
    && (Visits(calls, key, minute) == 0 <==> Calls(calls, key, minute) == 0)
    && Visits(calls, key, minute) <= Calls(calls, key, minute)
    && (LastMinute(calls, key) == Some(minute) ==>
          if Visits(calls, key, minute) <= 1 then Stretch(calls, key) == Calls(calls, key, minute)
          else Stretch(calls, key) < Calls(calls, key, minute))
    && (LastMinute(calls, key) == Some(minute) ==> Visits(calls, key, minute) >= 1)
  }

  lemma {:induction false} RunStretches(calls: seq<Call>, key: Bytes, minute: int)
    ensures StretchCounts(calls, key, minute)
  {
    if calls == [] {
    } else {
      RunStretches(calls[..|calls| - 1], key, minute);
    }
  }

  /** How the calls allowed in a minute compare with the limit. */
  ghost predicate Granted(allowed: int, limit: int, calls: int, visits: int)
  {
    && Smaller(limit, calls) <= allowed <= calls
    && (visits <= 1 ==> allowed == Smaller(limit, calls))
    && (visits > 1 && calls > limit ==> allowed > limit)
  }

  lemma {:induction false} RunGrants(limit: int, calls: seq<Call>, key: Bytes, minute: int)
    requires limit > 0
    ensures Granted(Allowed(limit, calls, key, minute), limit, Calls(calls, key, minute), Visits(calls, key, minute))
  {
    if calls == [] {
    } else {
      var front := calls[..|calls| - 1];
      RunGrants(limit, front, key, minute);
      AllowedByStretch(limit, calls);
      RunStretches(front, key, minute);
      RunStretches(calls, key, minute);
      hide LastAllowed;
    }
  }

  /**
   For every clock, forward or not, a key gets exactly the first `limit` of its calls in a minute
   if and only if it makes no more than that or its calls of that minute come in one stretch.
   */
  lemma RateIsExactIff(limit: int, calls: seq<Call>, key: Bytes, minute: int)
    requires limit > 0
    ensures Allowed(limit, calls, key, minute) == Smaller(limit, Calls(calls, key, minute))
       <==> Calls(calls, key, minute) <= limit || Visits(calls, key, minute) <= 1
    ensures Allowed(limit, calls, key, minute) >= Smaller(limit, Calls(calls, key, minute))
  {
    RunGrants(limit, calls, key, minute);
  }

  /** With a forward clock a key's last call is in the latest minute it called in. */
  lemma {:induction false} LastMinuteIsLatest(calls: seq<Call>, key: Bytes, minute: int)
    requires Forward(calls) && Calls(calls, key, minute) > 0
    ensures LastMinute(calls, key).Some? && minute <= LastMinute(calls, key).value
    ensures LastMinute(calls, key).value <= WindowOf(calls[|calls| - 1].now)
  {
    var front, last := calls[..|calls| - 1], calls[|calls| - 1];
    if front == [] {
    } else {
      assert front[|front| - 1] == calls[|calls| - 2];
      WindowsForward(front[|front| - 1].now, last.now);
      if Calls(front, key, minute) > 0 {
        LastMinuteIsLatest(front, key, minute);
      }
      if last.key != key { assert Calls(front, key, minute) > 0; }
    }
  }

  lemma WindowsForward(a: int, b: int)
    requires a <= b
    ensures WindowOf(a) <= WindowOf(b)
  {
  }

  /** A clock that does not go back visits every minute at most once. */
  lemma {:induction false} ForwardVisitsOnce(calls: seq<Call>, key: Bytes, minute: int)
    requires Forward(calls)
    ensures Visits(calls, key, minute) <= 1
  {
    if calls == [] {
    } else {
      var front, last := calls[..|calls| - 1], calls[|calls| - 1];
      ForwardVisitsOnce(front, key, minute);
      RunStretches(front, key, minute);
      if InMinute(last, key, minute) && Calls(front, key, minute) > 0 {
        LastMinuteIsLatest(front, key, minute);
        assert front[|front| - 1] == calls[|calls| - 2];
        WindowsForward(front[|front| - 1].now, last.now);
      }
    }
  }

  /**
   With a positive limit and a clock that does not go back, each key gets exactly the first
   `limit` of its calls in every aligned minute.
   */
  lemma RateIsExact(limit: int, calls: seq<Call>, key: Bytes, minute: int)
    requires limit > 0 && Forward(calls)
    ensures Allowed(limit, calls, key, minute) == Smaller(limit, Calls(calls, key, minute))
  {
    RateIsExactIff(limit, calls, key, minute);
    ForwardVisitsOnce(calls, key, minute);
  }

  /** A clock that goes back can be allowed more: here two calls of one minute under a limit of one. */
  lemma BackwardClockExceeds()
    ensures var k: Bytes := [];
            var calls := [Call(k, MINUTE), Call(k, 0), Call(k, MINUTE)];
            Allowed(1, calls, k, MINUTE) == 2
  {
    var k: Bytes := [];
    var c1 := [Call(k, MINUTE)];
    var c2 := c1 + [Call(k, 0)];
    var c3 := c2 + [Call(k, MINUTE)];
    assert c1[..0] == [] && c2[..1] == c1 && c3[..2] == c2;
    assert After(1, c1) == map[k := Window(MINUTE, 1)];
    assert After(1, c2) == map[k := Window(0, 1)];
    assert LastAllowed(1, c1) && LastAllowed(1, c3);
    assert Allowed(1, c1, k, MINUTE) == 1 && Allowed(1, c2, k, MINUTE) == 1;
    assert c3 == [Call(k, MINUTE), Call(k, 0), Call(k, MINUTE)];
  }

  /** The calls of one key. */
  function Own(calls: seq<Call>, key: Bytes): seq<Call>
  {
    if calls == [] then [] else
      Own(calls[..|calls| - 1], key) + if calls[|calls| - 1].key == key then [calls[|calls| - 1]] else []
  }

  /** Keys do not affect each other: a key's window and decisions are those of its own calls alone. */
  lemma {:induction false} KeysAreIndependent(limit: int, calls: seq<Call>, key: Bytes)
    ensures StateOf(After(limit, calls), key) == StateOf(After(limit, Own(calls, key)), key)
    ensures calls != [] && calls[|calls| - 1].key == key ==>
              Own(calls, key) != [] && LastAllowed(limit, calls) == LastAllowed(limit, Own(calls, key))
  {
    if calls == [] {
    } else {
      var front, last := calls[..|calls| - 1], calls[|calls| - 1];
      KeysAreIndependent(limit, front, key);
      if last.key == key {
        var own := Own(calls, key);
        assert own == Own(front, key) + [last];
        assert own[..|own| - 1] == Own(front, key);
      } else {
        assert Own(calls, key) == Own(front, key);
      }
    }
  }
}
