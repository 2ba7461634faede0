/** The hourly allowance of one peer, and what it means over any stretch of time. */
module Quota {
  import opened Wrappers

  const HOUR_MS := 60 * 60 * 1000
  const MAX_ENVELOPES := 1000
  const MAX_BYTES := 8 * 1024 * 1024

  datatype Window = Window(startedAtMs: int, envelopes: nat, bytes: nat)

  /** The window a frame is charged to: the peer's last one, or a new one once an hour has passed. */
  function Current(previous: Option<Window>, nowMs: int): Window
  {
    if previous.None? || nowMs - previous.value.startedAtMs >= HOUR_MS then Window(nowMs, 0, 0) else previous.value
  }

  /** Charging a frame; `None` is the quota error, which leaves the record as it was. */
  function Spend(previous: Option<Window>, bytes: nat, nowMs: int): Option<Window>
  {
    var w := Current(previous, nowMs);
    if w.envelopes >= MAX_ENVELOPES || w.bytes + bytes > MAX_BYTES then None
    else Some(w.(envelopes := w.envelopes + 1, bytes := w.bytes + bytes))
  }

  /** A recorded window was opened by a frame that it admitted, and is within its limits. */
  predicate Valid(w: Option<Window>)
  {
    w.Some? ==> 1 <= w.value.envelopes <= MAX_ENVELOPES && w.value.bytes <= MAX_BYTES
  }

  lemma {:induction false} SpendKeepsValid(w: Option<Window>, bytes: nat, nowMs: int)
    requires Valid(w)
    ensures Valid(Spend(w, bytes, nowMs))
    ensures Spend(w, bytes, nowMs).None? <==>
      if w.None? || nowMs - w.value.startedAtMs >= 3_600_000 then bytes > 8_388_608
      else w.value.envelopes == 1000 || w.value.bytes + bytes > 8_388_608
  {}

  // ---------------------------------------------------------------- runs

  datatype Arrival = Arrival(atMs: int, bytes: nat)

  function After(w: Option<Window>, a: Arrival): Option<Window>
  {
    if Spend(w, a.bytes, a.atMs).Some? then Spend(w, a.bytes, a.atMs) else w
  }

  /** What one peer gets admitted between `from` (included) and `until` (excluded): frames and bytes. */
  function Admitted(w: Option<Window>, run: seq<Arrival>, from: int, until: int): (nat, nat)
    decreases |run|
  {
    if run == [] then (0, 0)
    else
      var a := run[0];
      var rest := Admitted(After(w, a), run[1..], from, until);
      if Spend(w, a.bytes, a.atMs).Some? && from <= a.atMs < until then (rest.0 + 1, rest.1 + a.bytes) else rest
  }

  /** A clock that never goes backwards, starting at `start`. */
  predicate Forward(run: seq<Arrival>, start: int)
  {
    run == [] || (start <= run[0].atMs && Forward(run[1..], run[0].atMs))
  }

  lemma {:induction false} NothingAfter(w: Option<Window>, run: seq<Arrival>, from: int, until: int)
    requires Forward(run, until)
    ensures Admitted(w, run, from, until) == (0, 0)
    decreases |run|
  {
    if run != [] {
      ForwardLater(run[1..], run[0].atMs, until);
      NothingAfter(After(w, run[0]), run[1..], from, until);
    }
  }

  lemma {:induction false} ForwardLater(run: seq<Arrival>, start: int, earlier: int)
    requires Forward(run, start) && earlier <= start
    ensures Forward(run, earlier)
  {}

  /** Once a window has opened inside the interval, no later window can open inside it. */
  lemma {:induction false} RestOfWindow(w: Window, run: seq<Arrival>, from: int, until: int)
    requires until - from <= HOUR_MS && from <= w.startedAtMs
    requires Valid(Some(w)) && Forward(run, w.startedAtMs)
    ensures Admitted(Some(w), run, from, until).0 <= MAX_ENVELOPES - w.envelopes
    ensures Admitted(Some(w), run, from, until).1 <= MAX_BYTES - w.bytes
    decreases |run|
  {
    if run != [] {
      var a := run[0];
      if a.atMs - w.startedAtMs >= HOUR_MS {
        ForwardLater(run[1..], a.atMs, until);
        NothingAfter(After(Some(w), a), run[1..], from, until);
      } else {
        ForwardLater(run[1..], a.atMs, w.startedAtMs);
        RestOfWindow(After(Some(w), a).value, run[1..], from, until);
      }
    }
  }

  /** A window admits no more than its limits in the hour that starts with it. */
  lemma FixedWindow(opening: Arrival, previous: Option<Window>, run: seq<Arrival>)
    requires Valid(previous) && Current(previous, opening.atMs) == Window(opening.atMs, 0, 0)
    requires Forward(run, opening.atMs)
    ensures var total := Admitted(previous, [opening] + run, opening.atMs, opening.atMs + HOUR_MS);
      Spend(previous, opening.bytes, opening.atMs).Some? ==> total.0 <= MAX_ENVELOPES && total.1 <= MAX_BYTES
  {
    assert ([opening] + run)[1..] == run;
    if Spend(previous, opening.bytes, opening.atMs).Some? {
      RestOfWindow(After(previous, opening).value, run, opening.atMs, opening.atMs + HOUR_MS);
    }
  }

  /** What can still be admitted in an hour: the rest of the present window and one new one. */
  function EnvelopesLeft(w: Option<Window>): int
  {
    if w.None? then MAX_ENVELOPES else 2 * MAX_ENVELOPES - w.value.envelopes
  }

  function BytesLeft(w: Option<Window>): int
  {
    if w.None? then MAX_BYTES else 2 * MAX_BYTES - w.value.bytes
  }

  lemma {:induction false} TwoWindows(w: Option<Window>, run: seq<Arrival>, from: int, until: int)
    requires until - from <= HOUR_MS
    requires Valid(w) && Forward(run, from)
    ensures Admitted(w, run, from, until).0 <= EnvelopesLeft(w)
    ensures Admitted(w, run, from, until).1 <= BytesLeft(w)
    decreases |run|
  {
    if run != [] {
      var a := run[0];
      var w' := After(w, a);
      if Current(w, a.atMs) == Window(a.atMs, 0, 0) && w' != w {
        RestOfWindow(w'.value, run[1..], from, until);
      } else {
        ForwardLater(run[1..], a.atMs, from);
        TwoWindows(w', run[1..], from, until);
      }
    }
  }

  /**
   Any half-open interval of at most an hour admits fewer than two windows' worth of frames from
   one peer, and at most two windows' worth of bytes, however the frames are timed.
   */
  lemma {:induction false} SlidingBound(w: Option<Window>, run: seq<Arrival>, start: int, from: int, until: int)
    requires until - from <= 3_600_000
    requires Valid(w) && Forward(run, start)
    ensures Admitted(w, run, from, until).0 <= 1999
    ensures Admitted(w, run, from, until).1 <= 16_777_216
    decreases |run|
  {
    if run != [] {
      if run[0].atMs < from {
        SlidingBound(After(w, run[0]), run[1..], run[0].atMs, from, until);
      } else {
        TwoWindows(w, run, from, until);
      }
    }
  }

  // ---------------------------------------------------------------- the bound is reached

  function Burst(n: nat, atMs: int): (run: seq<Arrival>)
    ensures |run| == n
  {
    seq(n, _ => Arrival(atMs, 0))
  }

  lemma {:induction false} BurstAdmitted(w: Window, n: nat, atMs: int, rest: seq<Arrival>, from: int, until: int)
    requires w.envelopes + n <= MAX_ENVELOPES && w.bytes == 0 && atMs - w.startedAtMs < HOUR_MS
    requires from <= atMs < until
    ensures Admitted(Some(w), Burst(n, atMs) + rest, from, until).0
         == n + Admitted(Some(w.(envelopes := w.envelopes + n)), rest, from, until).0
    decreases n
  {
    var run := Burst(n, atMs) + rest;
    if n == 0 {
      assert run == rest;
    } else {
      assert run[1..] == Burst(n - 1, atMs) + rest;
      BurstAdmitted(w.(envelopes := w.envelopes + 1), n - 1, atMs, rest, from, until);
    }
  }

  lemma {:induction false} BurstForward(n: nat, atMs: int, rest: seq<Arrival>, start: int)
    requires start <= atMs && Forward(rest, atMs)
    ensures Forward(Burst(n, atMs) + rest, start)
    decreases n
  {
    var run := Burst(n, atMs) + rest;
    if n == 0 {
      assert run == rest;
      ForwardLater(rest, atMs, start);
    } else {
      assert run[1..] == Burst(n - 1, atMs) + rest;
      BurstForward(n - 1, atMs, rest, atMs);
    }
  }

  /** One frame at time 0, 999 at the end of its hour, 1000 at the start of the next. */
  lemma BoundIsReached()
    ensures
      var run := [Arrival(0, 0)] + (Burst(999, HOUR_MS - 1) + ([Arrival(HOUR_MS, 0)] + (Burst(999, HOUR_MS) + [])));
      && Forward(run, 0)
      && Admitted(None, run, HOUR_MS - 1, 2 * HOUR_MS - 1).0 == 1999
  {
    var last := Burst(999, HOUR_MS) + [];
    var next := [Arrival(HOUR_MS, 0)] + last;
    var first := Burst(999, HOUR_MS - 1) + next;
    var run := [Arrival(0, 0)] + first;
    var from, until := HOUR_MS - 1, 2 * HOUR_MS - 1;
    assert run[1..] == first && next[1..] == last;
    BurstForward(999, HOUR_MS, [], HOUR_MS);
    BurstForward(999, HOUR_MS - 1, next, 0);
    BurstAdmitted(Window(0, 1, 0), 999, HOUR_MS - 1, next, from, until);
    BurstAdmitted(Window(HOUR_MS, 1, 0), 999, HOUR_MS, [], from, until);
    assert After(None, Arrival(0, 0)) == Some(Window(0, 1, 0));
    assert Admitted(None, run, from, until) == Admitted(Some(Window(0, 1, 0)), first, from, until);
    assert After(Some(Window(0, 1000, 0)), Arrival(HOUR_MS, 0)) == Some(Window(HOUR_MS, 1, 0));
  }
}
