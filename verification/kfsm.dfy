/**
  A finite-state-machine guard: a current state label, a fixed table of
  transitions, and a history of the transitions taken, capped at
  `maxHistory` entries (a negative cap means unbounded).

  The pure part (`Matches`, `Apply`, `Scan`, `Log`) specifies what one call
  of `update` does; the class `KFSM` is the machine itself, whose `Update`
  method scans the table with a loop and is proved against `Scan`.
 */
module Kfsm {

  type State = string

  /** A rule that moves the machine from any state in `from` to `to`. */
  datatype Transition = Transition(from: seq<State>, to: State)

  /** One executed transition, as recorded in the history. */
  datatype HistoryEntry = HistoryEntry(from: State, to: State)

  /** `maxHistory < 0` means that the history is never trimmed. */
  datatype Options = Options(maxHistory: int)

  datatype Option<T> = None | Some(value: T)

  datatype UpdateError = TransitionNotFound

  datatype UpdateResult = Ok | Err(error: UpdateError)

  /** The part of a machine that an update changes. */
  datatype Snapshot = Snapshot(current: State, history: seq<HistoryEntry>)

  /** The cap a machine gets when it is built without options. */
  const DefaultMaxHistory := -1

  // ---------------------------------------------------------------------
  // One step of the scan
  // ---------------------------------------------------------------------

  /** Transition `t` fires from `current` towards `next`. */
  predicate Matches(t: Transition, current: State, next: State) {
    current in t.from && t.to == next
  }

  /** Some transition of the table fires from `current` towards `next`. */
  predicate AnyMatch(ts: seq<Transition>, current: State, next: State) {
    exists i :: 0 <= i < |ts| && Matches(ts[i], current, next)
  }

  /**
    The history is trimmed before an append when its length has reached the
    cap. The cap is converted to an unsigned length first: a negative cap
    becomes at least 2^63, a length no history reaches, so it never trims.
   */
  predicate Evicts(maxHistory: int, len: nat) {
    0 <= maxHistory <= len
  }

  /**
    An update that would remove the oldest entry of an empty history: the
    cap is 0, the history is empty and some transition fires. Removing from
    an empty vector aborts, so callers must not reach this.
   */
  predicate EvictsFromEmpty(ts: seq<Transition>, s: Snapshot, next: State, maxHistory: int) {
    maxHistory == 0 && s.history == [] && AnyMatch(ts, s.current, next)
  }

  /** The newest `n` elements of `s`. */
  function Last<T>(s: seq<T>, n: nat): (r: seq<T>)
    requires n <= |s|
    ensures |r| == n
  {
    s[|s| - n..]
  }

  /**
    One firing transition: trim the oldest entry if the cap is reached,
    append `current -> next`, move to `next`. The history grows by one
    unless the cap is reached, and its newest entry is the one appended.
   */
  function Apply(s: Snapshot, next: State, maxHistory: int): (r: Snapshot)
    requires !(Evicts(maxHistory, |s.history|) && s.history == [])
    ensures r.current == next
    ensures |r.history| == if Evicts(maxHistory, |s.history|) then |s.history| else |s.history| + 1
    ensures r.history[|r.history| - 1] == HistoryEntry(s.current, next)
  {
    var kept := if Evicts(maxHistory, |s.history|) then s.history[1..] else s.history;
    Snapshot(next, kept + [HistoryEntry(s.current, next)])
  }

  /**
    Besides the newest entry, `Apply` keeps the old entries in order and
    drops only the oldest one, and only when the cap is reached: the result
    is the newest entries of the old history followed by `current -> next`.
   */
  lemma ApplyKeepsNewest(s: Snapshot, next: State, maxHistory: int)
    requires !(Evicts(maxHistory, |s.history|) && s.history == [])
    ensures var r := Apply(s, next, maxHistory);
            r.history == Last(s.history + [HistoryEntry(s.current, next)], |r.history|)
  {
    var e := HistoryEntry(s.current, next);
    if Evicts(maxHistory, |s.history|) {
      assert s.history[1..] + [e] == (s.history + [e])[1..];
    } else {
      assert s.history + [e] == (s.history + [e])[0..];
    }
  }

  /**
    The state after scanning the table `ts` in order from `s`: every
    transition that fires from the state reached so far is applied. The
    test is made against the current state at that point of the scan, not
    against the state before the call.
   */
  function Scan(ts: seq<Transition>, s: Snapshot, next: State, maxHistory: int): (r: Snapshot)
    requires !EvictsFromEmpty(ts, s, next, maxHistory)
    ensures r.history == [] ==> r == s
    decreases |ts|
  {
    if ts == [] then s
    else
      var prefix, t := ts[..|ts| - 1], ts[|ts| - 1];
      assert forall i :: 0 <= i < |prefix| ==> prefix[i] == ts[i];
      var mid := Scan(prefix, s, next, maxHistory);
      if Matches(t, mid.current, next) then Apply(mid, next, maxHistory) else mid
  }

  // ---------------------------------------------------------------------
  // An independent description of the entries one update appends
  // ---------------------------------------------------------------------

  /**
    The entries one update appends, before any trimming: nothing if no
    transition fires from `current`; otherwise `current -> next` for the
    first transition that fires, then `next -> next` for every later
    transition whose `from` holds `next` and whose `to` is `next`.
   */
  function Log(ts: seq<Transition>, current: State, next: State): seq<HistoryEntry> {
    if ts == [] then []
    else if Matches(ts[0], current, next) then [HistoryEntry(current, next)] + SelfLoops(ts[1..], next)
    else Log(ts[1..], current, next)
  }

  /** One `next -> next` entry per transition of `ts` that fires from `next` towards `next`. */
  function SelfLoops(ts: seq<Transition>, next: State): seq<HistoryEntry> {
    if ts == [] then []
    else (if Matches(ts[0], next, next) then [HistoryEntry(next, next)] else []) + SelfLoops(ts[1..], next)
  }

  /** How many entries a scan keeps out of `h` old ones and `n` new ones under the cap. */
  function Retained(h: nat, n: nat, maxHistory: int): (k: nat)
    ensures k <= h + n
    ensures maxHistory < 0 ==> k == h + n
    ensures 0 <= maxHistory && h <= maxHistory ==> k <= maxHistory
    ensures n == 0 ==> k == h
  {
    if maxHistory < 0 then h + n
    else if h < maxHistory && h < h + n then (if maxHistory < h + n then maxHistory else h + n)
    else h
  }

  lemma {:induction false} SelfLoopsShape(ts: seq<Transition>, next: State)
    ensures forall i :: 0 <= i < |SelfLoops(ts, next)| ==> SelfLoops(ts, next)[i] == HistoryEntry(next, next)
    decreases |ts|
  {
    if ts != [] {
      SelfLoopsShape(ts[1..], next);
    }
  }

  /**
    An update appends nothing exactly when no transition fires from the
    state before the call; otherwise its first entry leaves that state and
    every later one is the self-loop `next -> next`.
   */
  lemma {:induction false} LogShape(ts: seq<Transition>, current: State, next: State)
    ensures Log(ts, current, next) == [] <==> !AnyMatch(ts, current, next)
    ensures forall i :: 0 <= i < |Log(ts, current, next)| ==>
              Log(ts, current, next)[i] == HistoryEntry(if i == 0 then current else next, next)
    decreases |ts|
  {
    if ts != [] {
      if Matches(ts[0], current, next) {
        SelfLoopsShape(ts[1..], next);
      } else {
        LogShape(ts[1..], current, next);
        if AnyMatch(ts, current, next) {
          var i :| 0 <= i < |ts| && Matches(ts[i], current, next);
          assert ts[1..][i - 1] == ts[i];
        }
        if AnyMatch(ts[1..], current, next) {
          var i :| 0 <= i < |ts[1..]| && Matches(ts[1..][i], current, next);
          assert ts[i + 1] == ts[1..][i];
        }
      }
    }
  }

  lemma {:induction false} SelfLoopsSnoc(ts: seq<Transition>, t: Transition, next: State)
    ensures SelfLoops(ts + [t], next) == SelfLoops(ts, next) + (if Matches(t, next, next) then [HistoryEntry(next, next)] else [])
    decreases |ts|
  {
    var tail := if Matches(t, next, next) then [HistoryEntry(next, next)] else [];
    if ts == [] {
      assert ts + [t] == [t];
      assert SelfLoops([t], next) == tail + SelfLoops([], next);
    } else {
      var head := if Matches(ts[0], next, next) then [HistoryEntry(next, next)] else [];
      assert (ts + [t])[0] == ts[0];
      assert (ts + [t])[1..] == ts[1..] + [t];
      SelfLoopsSnoc(ts[1..], t, next);
      calc {
        SelfLoops(ts + [t], next);
        head + SelfLoops(ts[1..] + [t], next);
        head + (SelfLoops(ts[1..], next) + tail);
        (head + SelfLoops(ts[1..], next)) + tail;
        SelfLoops(ts, next) + tail;
      }
    }
  }

  /**
    Scanning one more transition: it fires from `next` once something has
    fired, and from the state before the call while nothing has.
   */
  lemma {:induction false} LogSnoc(ts: seq<Transition>, t: Transition, current: State, next: State)
    ensures var before := Log(ts, current, next);
            var from := if before == [] then current else next;
            Log(ts + [t], current, next) == before + (if Matches(t, from, next) then [HistoryEntry(from, next)] else [])
    decreases |ts|
  {
    if ts == [] {
      assert ts + [t] == [t];
    } else {
      assert (ts + [t])[0] == ts[0];
      assert (ts + [t])[1..] == ts[1..] + [t];
      if Matches(ts[0], current, next) {
        SelfLoopsSnoc(ts[1..], t, next);
      } else {
        LogSnoc(ts[1..], t, current, next);
      }
    }
  }

  lemma LastOfLast<T>(x: seq<T>, a: nat, e: T, b: nat)
    requires a <= |x| && b <= a + 1
    ensures Last(Last(x, a) + [e], b) == Last(x + [e], b)
  {
    assert Last(x, a) + [e] == (x + [e])[|x| - a..];
  }

  /**
    What a scan does, in closed form: the machine ends in `next` if any
    transition fired and stays put otherwise, and the history is the newest
    `Retained` entries of the old history followed by the appended entries
    (first in, first out).
   */
  lemma {:induction false} ScanHistory(ts: seq<Transition>, s: Snapshot, next: State, maxHistory: int)
    requires !EvictsFromEmpty(ts, s, next, maxHistory)
    ensures var log := Log(ts, s.current, next);
            Scan(ts, s, next, maxHistory)
              == Snapshot(if log == [] then s.current else next,
                          Last(s.history + log, Retained(|s.history|, |log|, maxHistory)))
    decreases |ts|
  {
    var log := Log(ts, s.current, next);
    if ts == [] {
      assert s.history + log == s.history;
    } else {
      var prefix, t := ts[..|ts| - 1], ts[|ts| - 1];
      assert ts == prefix + [t];
      assert ts[..|ts|] == ts;
      ScanStep(ts, |ts| - 1, s, next, maxHistory);
      ScanHistory(prefix, s, next, maxHistory);
      LogSnoc(prefix, t, s.current, next);
      var pLog := Log(prefix, s.current, next);
      var mid := Scan(prefix, s, next, maxHistory);
      if Matches(t, mid.current, next) {
        var e := HistoryEntry(mid.current, next);
        ApplyRetains(s.history, pLog, mid, e, maxHistory, log);
      } else {
        assert log == pLog;
      }
    }
  }

  /** One more appended entry keeps one more entry, unless the cap is reached. */
  lemma RetainedStep(h: nat, n: nat, maxHistory: int)
    ensures Retained(h, n + 1, maxHistory)
            == if Evicts(maxHistory, Retained(h, n, maxHistory)) then Retained(h, n, maxHistory)
               else Retained(h, n, maxHistory) + 1
  {
  }

  /**
    Applying a firing transition `e` to a window of the old entries and the
    log so far gives the window of the old entries and the log extended by `e`.
   */
  lemma ApplyRetains(prior: seq<HistoryEntry>, pLog: seq<HistoryEntry>, mid: Snapshot, e: HistoryEntry, maxHistory: int, log: seq<HistoryEntry>)
    requires mid.history == Last(prior + pLog, Retained(|prior|, |pLog|, maxHistory))
    requires e.from == mid.current
    requires !(Evicts(maxHistory, |mid.history|) && mid.history == [])
    requires log == pLog + [e]
    ensures Apply(mid, e.to, maxHistory).history == Last(prior + log, Retained(|prior|, |log|, maxHistory))
  {
    RetainedStep(|prior|, |pLog|, maxHistory);
    ApplyLast(prior + pLog, Retained(|prior|, |pLog|, maxHistory), mid, e, maxHistory, Retained(|prior|, |pLog| + 1, maxHistory));
    ConcatAssoc(prior, pLog, [e]);
  }

  lemma ConcatAssoc<T>(a: seq<T>, b: seq<T>, c: seq<T>)
    ensures a + (b + c) == a + b + c
  {
  }

  /** Applying a firing transition to the newest `a` entries of `x` gives the newest `b` entries of `x + [e]`. */
  lemma ApplyLast(x: seq<HistoryEntry>, a: nat, mid: Snapshot, e: HistoryEntry, maxHistory: int, b: nat)
    requires a <= |x| && mid.history == Last(x, a)
    requires e.from == mid.current
    requires !(Evicts(maxHistory, a) && a == 0)
    requires b == if Evicts(maxHistory, a) then a else a + 1
    ensures Apply(mid, e.to, maxHistory).history == Last(x + [e], b)
  {
    var h := mid.history;
    if Evicts(maxHistory, a) {
      assert Apply(mid, e.to, maxHistory).history == h[1..] + [e];
      assert h[1..] + [e] == (h + [e])[1..];
    } else {
      assert Apply(mid, e.to, maxHistory).history == h + [e];
    }
    LastOfLast(x, a, e, b);
  }

  /** With a negative cap nothing is trimmed: each appended entry grows the history by one. */
  lemma ScanUnbounded(ts: seq<Transition>, s: Snapshot, next: State, maxHistory: int)
    requires maxHistory < 0
    ensures Scan(ts, s, next, maxHistory).history == s.history + Log(ts, s.current, next)
  {
    ScanHistory(ts, s, next, maxHistory);
  }

  /** A history within a non-negative cap stays within it. */
  lemma {:induction false} ScanWithinCap(ts: seq<Transition>, s: Snapshot, next: State, maxHistory: int)
    requires !EvictsFromEmpty(ts, s, next, maxHistory)
    requires 0 <= maxHistory && |s.history| <= maxHistory
    ensures |Scan(ts, s, next, maxHistory).history| <= maxHistory
  {
    ScanHistory(ts, s, next, maxHistory);
  }

  /**
    A scan changes nothing when no transition fires from the state before
    the call, and otherwise ends in `next`.
   */
  lemma {:induction false} ScanOutcome(ts: seq<Transition>, s: Snapshot, next: State, maxHistory: int)
    requires !EvictsFromEmpty(ts, s, next, maxHistory)
    ensures !AnyMatch(ts, s.current, next) ==> Scan(ts, s, next, maxHistory) == s
    ensures AnyMatch(ts, s.current, next) ==> Scan(ts, s, next, maxHistory).current == next
  {
    ScanHistory(ts, s, next, maxHistory);
    LogShape(ts, s.current, next);
    assert s.history + [] == s.history;
  }

  /** Scanning the prefix `ts[..n + 1]` is scanning `ts[..n]` and then looking at `ts[n]`. */
  lemma ScanStep(ts: seq<Transition>, n: nat, s: Snapshot, next: State, maxHistory: int)
    requires n < |ts|
    requires !EvictsFromEmpty(ts, s, next, maxHistory)
    ensures !EvictsFromEmpty(ts[..n], s, next, maxHistory)
    ensures !EvictsFromEmpty(ts[..n + 1], s, next, maxHistory)
    ensures AnyMatch(ts[..n + 1], s.current, next) <==> AnyMatch(ts[..n], s.current, next) || Matches(ts[n], s.current, next)
    ensures var mid := Scan(ts[..n], s, next, maxHistory);
            && (!Matches(ts[n], mid.current, next) ==> Scan(ts[..n + 1], s, next, maxHistory) == mid)
            && (Matches(ts[n], mid.current, next) && !(Evicts(maxHistory, |mid.history|) && mid.history == []) ==>
                  Scan(ts[..n + 1], s, next, maxHistory) == Apply(mid, next, maxHistory))
  {
    assert ts[..n + 1][..n] == ts[..n];
    assert forall j :: 0 <= j < n ==> ts[..n][j] == ts[j];
    assert forall j :: 0 <= j <= n ==> ts[..n + 1][j] == ts[j];
  }

  // ---------------------------------------------------------------------
  // The machine invariant
  // ---------------------------------------------------------------------

  /** Some transition of the table allows `e`. */
  predicate Allowed(ts: seq<Transition>, e: HistoryEntry) {
    AnyMatch(ts, e.from, e.to)
  }

  /**
    What holds of every machine built by `new` and changed only by
    `update`: the current state is the initial one or the target of some
    transition, and it is the initial one while nothing was recorded (so,
    with the chaining below, it is the target of the newest recorded move
    otherwise); the history respects a non-negative cap; every entry was
    allowed by the table; the entries chain up, and the newest one ends in
    the current state.
   */
  ghost predicate Invariant(initial: State, ts: seq<Transition>, maxHistory: int, s: Snapshot) {
    && Reachable(initial, ts, s.current)
    && (s.history == [] ==> s.current == initial)
    && (0 <= maxHistory ==> |s.history| <= maxHistory)
    && AllAllowed(ts, s.history)
    && Chained(s.history, s.current)
  }

  /** `current` is the initial state or the target of some transition. */
  ghost predicate Reachable(initial: State, ts: seq<Transition>, current: State) {
    current == initial || exists t :: t in ts && t.to == current
  }

  /** Every entry of `h` is allowed by the table. */
  ghost predicate AllAllowed(ts: seq<Transition>, h: seq<HistoryEntry>) {
    forall i :: 0 <= i < |h| ==> Allowed(ts, h[i])
  }

  /** The entries of `h` follow one another, and the newest ends in `current`. */
  ghost predicate Chained(h: seq<HistoryEntry>, current: State) {
    && (forall i :: 0 <= i < |h| - 1 ==> h[i].to == h[i + 1].from)
    && (h != [] ==> h[|h| - 1].to == current)
  }

  lemma ApplyKeepsInvariant(initial: State, ts: seq<Transition>, j: nat, s: Snapshot, next: State, maxHistory: int)
    requires j < |ts| && Matches(ts[j], s.current, next)
    requires !(Evicts(maxHistory, |s.history|) && s.history == [])
    requires Invariant(initial, ts, maxHistory, s)
    ensures Invariant(initial, ts, maxHistory, Apply(s, next, maxHistory))
  {
    var e := HistoryEntry(s.current, next);
    var d := if Evicts(maxHistory, |s.history|) then 1 else 0;
    var r := Apply(s, next, maxHistory);
    assert r.history == s.history[d..] + [e];
    assert Reachable(initial, ts, r.current) by {
      assert ts[j] in ts;
    }
    assert Allowed(ts, e) by {
      assert Matches(ts[j], e.from, e.to);
    }
    HistorySuffix(ts, s.history, s.current, d);
    HistoryAppend(ts, s.history[d..], s.current, e);
  }

  /** Dropping the oldest entries keeps a history allowed and chained. */
  lemma HistorySuffix(ts: seq<Transition>, h: seq<HistoryEntry>, current: State, d: nat)
    requires d <= |h|
    requires AllAllowed(ts, h) && Chained(h, current)
    ensures AllAllowed(ts, h[d..]) && Chained(h[d..], current)
  {
    assert forall i :: 0 <= i < |h| - d ==> h[d..][i] == h[d + i];
  }

  /** Appending an allowed entry that leaves the current state keeps a history allowed and chained. */
  lemma HistoryAppend(ts: seq<Transition>, h: seq<HistoryEntry>, current: State, e: HistoryEntry)
    requires AllAllowed(ts, h) && Chained(h, current)
    requires Allowed(ts, e) && e.from == current
    ensures AllAllowed(ts, h + [e]) && Chained(h + [e], e.to)
  {
    assert forall i :: 0 <= i < |h| ==> (h + [e])[i] == h[i];
  }

  /** A scan keeps the machine invariant. */
  lemma {:induction false} ScanKeepsInvariant(initial: State, ts: seq<Transition>, s: Snapshot, next: State, maxHistory: int)
    requires !EvictsFromEmpty(ts, s, next, maxHistory)
    requires Invariant(initial, ts, maxHistory, s)
    ensures Invariant(initial, ts, maxHistory, Scan(ts, s, next, maxHistory))
  {
    ScanPrefixKeepsInvariant(initial, ts, |ts|, s, next, maxHistory);
    assert ts[..|ts|] == ts;
  }

  /** The invariant holds after scanning any prefix of the table; it is stated against the whole table. */
  lemma {:induction false} ScanPrefixKeepsInvariant(initial: State, ts: seq<Transition>, n: nat, s: Snapshot, next: State, maxHistory: int)
    requires n <= |ts|
    requires !EvictsFromEmpty(ts[..n], s, next, maxHistory)
    requires Invariant(initial, ts, maxHistory, s)
    ensures Invariant(initial, ts, maxHistory, Scan(ts[..n], s, next, maxHistory))
    decreases n
  {
    if n > 0 {
      var prefix := ts[..n][..n - 1];
      assert prefix == ts[..n - 1];
      assert forall i :: 0 <= i < n - 1 ==> ts[..n - 1][i] == ts[..n][i];
      ScanPrefixKeepsInvariant(initial, ts, n - 1, s, next, maxHistory);
      var mid := Scan(prefix, s, next, maxHistory);
      if Matches(ts[n - 1], mid.current, next) {
        assert ts[..n][n - 1] == ts[n - 1];
        ApplyKeepsInvariant(initial, ts, n - 1, mid, next, maxHistory);
      }
    }
  }

  // ---------------------------------------------------------------------
  // The machine
  // ---------------------------------------------------------------------

  class KFSM {
    var initial: State
    var current: State
    var transitions: seq<Transition>
    var history: seq<HistoryEntry>
    var options: Options

    ghost function Snap(): Snapshot
      reads this
    {
      Snapshot(current, history)
    }

    ghost predicate Valid()
      reads this
    {
      Invariant(initial, transitions, options.maxHistory, Snap())
    }

    /** A machine in its initial state with an empty history; no options means an unbounded history. */
    constructor (initial: State, transitions: seq<Transition>, opts: Option<Options>)
      ensures this.initial == initial && current == initial
      ensures this.transitions == transitions
      ensures history == []
      ensures options == if opts.Some? then opts.value else Options(DefaultMaxHistory)
      ensures Valid()
    {
      var o := match opts
        case Some(v) => v
        case None => Options(DefaultMaxHistory);
      this.initial := initial;
      current := initial;
      this.transitions := transitions;
      history := [];
      options := o;
    }

    /**
      Scan the whole table; apply every transition that fires from the
      state reached so far towards `next`. Fails, changing nothing, when no
      transition fires from the state before the call.
     */
    method Update(next: State) returns (r: UpdateResult)
      requires !EvictsFromEmpty(transitions, Snap(), next, options.maxHistory)
      modifies this`current, this`history
      ensures r.Ok? <==> AnyMatch(transitions, old(current), next)
      ensures r.Err? ==> r.error == TransitionNotFound && current == old(current) && history == old(history)
      ensures r.Ok? ==> current == next
      ensures var log := Log(transitions, old(current), next);
              history == Last(old(history) + log, Retained(|old(history)|, |log|, options.maxHistory))
      ensures old(Valid()) ==> Valid()
    {
      ghost var s0 := Snap();
      var ts, cap := transitions, options.maxHistory;
      var changed := false;
      for i := 0 to |ts|
        invariant Snap() == Scan(ts[..i], s0, next, cap)
        invariant changed <==> AnyMatch(ts[..i], s0.current, next)
        invariant !changed ==> Snap() == s0
        invariant changed ==> current == next && history != []
      {
        var t := ts[i];
        ScanStep(ts, i, s0, next, cap);
        if current in t.from && t.to == next {
          if 0 <= cap && |history| >= cap {
            history := history[1..];
          }
          history := history + [HistoryEntry(current, next)];
          current := next;
          changed := true;
        }
      }
      assert ts[..|ts|] == ts;
      ScanHistory(ts, s0, next, cap);
      if old(Valid()) {
        ScanKeepsInvariant(initial, ts, s0, next, cap);
      }
      if !changed {
        return Err(TransitionNotFound);
      }
      return Ok;
    }
  }

  // ---------------------------------------------------------------------
  // Worked examples
  // ---------------------------------------------------------------------

  /**
    Two transitions from `a` to `b`, the second also from `x`: only the
    first fires, since once the machine is in `b` the second no longer
    matches.
   */
  lemma OverlappingTransitionsFireOnce(a: State, b: State, x: State)
    requires b != a && b != x
    ensures Scan([Transition([a], b), Transition([a, x], b)], Snapshot(a, []), b, -1)
            == Snapshot(b, [HistoryEntry(a, b)])
  {
    var ab, axb := Transition([a], b), Transition([a, x], b);
    var s0 := Snapshot(a, []);
    assert [ab, axb][..1] == [ab] && [ab][..0] == [];
    assert Scan([], s0, b, -1) == s0 && Matches(ab, a, b);
    assert Scan([ab], s0, b, -1) == Apply(s0, b, -1);
    assert !Matches(axb, b, b);
  }

  /** A self-loop on `b` listed after the transition into `b` fires too, adding a second entry. */
  lemma SelfLoopFiresAfterMove(a: State, b: State)
    ensures Scan([Transition([a], b), Transition([b], b)], Snapshot(a, []), b, -1)
            == Snapshot(b, [HistoryEntry(a, b), HistoryEntry(b, b)])
  {
    var ab, bb := Transition([a], b), Transition([b], b);
    var s0 := Snapshot(a, []);
    assert [ab, bb][..1] == [ab] && [ab][..0] == [];
    assert Scan([], s0, b, -1) == s0 && Matches(ab, a, b);
    var s1 := Scan([ab], s0, b, -1);
    assert s1 == Apply(s0, b, -1) == Snapshot(b, [HistoryEntry(a, b)]);
    assert Matches(bb, s1.current, b);
    assert Apply(s1, b, -1) == Snapshot(b, [HistoryEntry(a, b)] + [HistoryEntry(b, b)]);
  }

  /** A new machine starts in its initial state with an empty, unbounded history. */
  method NewMachineDefaults(a: State, b: State) returns (initial: State, current: State, historyLength: nat, maxHistory: int)
    ensures initial == a && current == a
    ensures historyLength == 0 && maxHistory == -1
  {
    var k := new KFSM(a, [Transition([a], b)], None);
    initial, current, historyLength, maxHistory := k.initial, k.current, |k.history|, k.options.maxHistory;
  }

  /** Moving from `a` to `b` along the first of the transitions `a -> b`, `b -> c` records one entry. */
  method UpdateMovesAlongTable(a: State, b: State, c: State) returns (r: UpdateResult, current: State, history: seq<HistoryEntry>)
    requires b != c
    ensures r == Ok && current == b && history == [HistoryEntry(a, b)]
  {
    var ab, bc := Transition([a], b), Transition([b], c);
    var k := new KFSM(a, [ab, bc], None);
    MoveAlongTableLog(a, b, c);
    r := k.Update(b);
    current, history := k.current, k.history;
  }

  /** The entries appended by the move from `a` to `b` along `a -> b`, `b -> c`. */
  lemma MoveAlongTableLog(a: State, b: State, c: State)
    requires b != c
    ensures AnyMatch([Transition([a], b), Transition([b], c)], a, b)
    ensures var log := Log([Transition([a], b), Transition([b], c)], a, b);
            log == [HistoryEntry(a, b)] && Last([] + log, Retained(0, |log|, -1)) == log
  {
    var ab, bc := Transition([a], b), Transition([b], c);
    assert [ab, bc][1..] == [bc] && [bc][1..] == [];
    assert !Matches(bc, b, b) && SelfLoops([bc], b) == [] + SelfLoops([], b);
    assert Matches([ab, bc][0], a, b);
    assert [] + [HistoryEntry(a, b)] == [HistoryEntry(a, b)];
  }

  /** From `b`, no transition of `a -> b`, `b -> c` leads to `d`: the update fails and changes nothing. */
  method UpdateRejectsUnknownTarget(a: State, b: State, c: State, d: State) returns (r: UpdateResult, current: State, history: seq<HistoryEntry>)
    requires d != b && d != c
    ensures r == Err(TransitionNotFound) && current == b && history == []
  {
    var ab, bc := Transition([a], b), Transition([b], c);
    var k := new KFSM(b, [ab, bc], None);
    assert !Matches(ab, b, d) && !Matches(bc, b, d);
    assert !AnyMatch([ab, bc], b, d);
    r := k.Update(d);
    current, history := k.current, k.history;
  }

  /** The entries appended by one move along `a -> b`, `b -> a`. */
  lemma BackAndForthLog(a: State, b: State)
    requires a != b
    ensures Log([Transition([a], b), Transition([b], a)], a, b) == [HistoryEntry(a, b)]
    ensures Log([Transition([a], b), Transition([b], a)], b, a) == [HistoryEntry(b, a)]
  {
    var ab, ba := Transition([a], b), Transition([b], a);
    assert [ab, ba][1..] == [ba] && [ba][1..] == [];
    assert SelfLoops([ba], b) == [] + SelfLoops([], b) == [];
    assert Log([ba], b, a) == [HistoryEntry(b, a)] + SelfLoops([], a) == [HistoryEntry(b, a)];
  }

  /** With a cap of 2, three moves between `a` and `b` keep the two newest entries. */
  lemma BoundedHistoryKeepsNewest(a: State, b: State)
    requires a != b
    ensures var ts := [Transition([a], b), Transition([b], a)];
            var s1 := Scan(ts, Snapshot(a, []), b, 2);
            var s2 := Scan(ts, s1, a, 2);
            Scan(ts, s2, b, 2) == Snapshot(b, [HistoryEntry(b, a), HistoryEntry(a, b)])
  {
    var ts := [Transition([a], b), Transition([b], a)];
    var e1, e2 := HistoryEntry(a, b), HistoryEntry(b, a);
    BackAndForthLog(a, b);
    var s0 := Snapshot(a, []);
    ScanHistory(ts, s0, b, 2);
    var s1 := Scan(ts, s0, b, 2);
    assert s1 == Snapshot(b, Last([] + [e1], 1));
    assert s1 == Snapshot(b, [e1]);
    ScanHistory(ts, s1, a, 2);
    var s2 := Scan(ts, s1, a, 2);
    assert s2 == Snapshot(a, Last([e1] + [e2], 2));
    assert s2 == Snapshot(a, [e1, e2]);
    ScanHistory(ts, s2, b, 2);
    assert Scan(ts, s2, b, 2) == Snapshot(b, Last([e1, e2] + [e1], 2));
  }
}
