/** The clock-sweep replacement policy and the search for a frame to reuse. */
module ClockSweep {

  const LRU_MAX_PIN: nat := 5

  type Counters = seq<nat>

  function Max(a: int, b: int): int { if a < b then b else a }

  function Drop(c: nat, k: nat): nat { if c < k then 0 else c - k }

  /** Sweeps until a counter is zero: every sweep first lowers it, so a zero counter takes one sweep too. */
  function Rounds(c: nat): nat { Max(c, 1) }

  /** Frame `v` is the first to reach zero: no other frame needs fewer sweeps, and no earlier one as few. */
  ghost predicate Victim(c: Counters, v: nat) {
    && v < |c|
    && (forall i :: 0 <= i < v ==> Rounds(c[v]) < Rounds(c[i]))
    && (forall i :: v < i < |c| ==> Rounds(c[v]) <= Rounds(c[i]))
  }

  /** The counters after the sweeps that end at victim `v`: frames up to `v` were visited once more. */
  function Swept(c: Counters, v: nat): Counters
    requires v < |c|
  {
    seq(|c|, i requires 0 <= i < |c| => Drop(c[i], if i <= v then Rounds(c[v]) else Rounds(c[v]) - 1))
  }

  /** The victim is at zero; with k its counter before, at least one, every frame before it had more than k and lost k,
      and every frame behind it had k or more, unless k is one, and lost k - 1. */
  ghost predicate LostTo(c: Counters, d: Counters, v: nat) {
    && |d| == |c| && v < |c| && d[v] == 0
    && var k := if c[v] == 0 then 1 else c[v];
      && (forall i :: 0 <= i < v ==> c[i] > k && d[i] == c[i] - k)
      && (forall i :: v < i < |c| ==> (c[i] >= k || k == 1) && d[i] == c[i] - (k - 1))
  }

  lemma SweptLost(c: Counters, v: nat)
    requires Victim(c, v)
    ensures LostTo(c, Swept(c, v), v)
  {
    forall i | 0 <= i < |c| ensures Swept(c, v)[i] == Drop(c[i], if i <= v then Rounds(c[v]) else Rounds(c[v]) - 1) {
    }
  }

  /** A counter after one more pin. */
  function PinnedOnce(c: nat): nat { if c < LRU_MAX_PIN then c + 1 else c }

  class ClockSweepLRU {
    const frames: array<nat>

    constructor (capacity: nat)
      ensures fresh(frames) && frames[..] == seq(capacity, _ => 0)
    {
      frames := new nat[capacity](_ => 0);
    }

    method Pin(f: nat)
      requires f < frames.Length
      modifies frames
      ensures frames[..] == old(frames[..])[f := PinnedOnce(old(frames[f]))]
      ensures frames[f] == old(frames[f]) + if old(frames[f]) < 5 then 1 else 0
    {
      if frames[f] < LRU_MAX_PIN {
        frames[f] := frames[f] + 1;
      }
    }

    method Unpin(f: nat)
      requires f < frames.Length
      modifies frames
      ensures frames[..] == old(frames[..])[f := Drop(old(frames[f]), 1)]
    {
      if frames[f] > 0 {
        frames[f] := frames[f] - 1;
      }
    }

    /** Sweep from frame 0 until a counter reaches zero. */
    method Evict() returns (v: nat)
      requires frames.Length > 0
      modifies frames
      ensures Victim(old(frames[..]), v) && frames[..] == Swept(old(frames[..]), v)
      ensures LostTo(old(frames[..]), frames[..], v)
    {
      ghost var c := frames[..];
      ghost var k: nat := 0;
      while true
        invariant forall i :: 0 <= i < |c| ==> k < Rounds(c[i]) && frames[i] == Drop(c[i], k)
        decreases Rounds(c[0]) - k
      {
        var i := 0;
        while i < frames.Length
          invariant i <= frames.Length
          invariant forall j :: 0 <= j < i ==> k + 1 < Rounds(c[j]) && frames[j] == Drop(c[j], k + 1)
          invariant forall j :: i <= j < |c| ==> frames[j] == Drop(c[j], k)
        {
          Unpin(i);
          if frames[i] == 0 {
            assert Rounds(c[i]) == k + 1;
            SweptLost(c, i);
            assert frames[..] == Swept(c, i);
            return i;
          }
          i := i + 1;
        }
        k := k + 1;
      }
    }
  }

  // ---- when the search for an unpinned victim ends ----

  /** A frame that needs fewer sweeps than every frame before it. */
  predicate RecordLow(c: Counters, i: nat) {
    i < |c| && forall j :: 0 <= j < i ==> Rounds(c[i]) < Rounds(c[j])
  }

  /** The counters after an attempt whose victim turned out to be pinned: it gets its pin back. */
  function Retried(c: Counters, v: nat): Counters
    requires v < |c|
  {
    Swept(c, v)[v := 1]
  }

  predicate Unpinned(pins: seq<nat>, i: nat) {
    i < |pins| && pins[i] == 0
  }

  /** The condition a caller can check: some record-low frame is unpinned. */
  predicate CanEvict(c: Counters, pins: seq<nat>) {
    exists i :: 0 <= i < |c| && RecordLow(c, i) && Unpinned(pins, i)
  }

  lemma {:induction false} VictimExists(c: Counters) returns (v: nat)
    requires c != []
    ensures Victim(c, v)
    decreases |c|
  {
    var n := |c| - 1;
    if n == 0 { return 0; }
    v := VictimExists(c[..n]);
    if Rounds(c[n]) < Rounds(c[v]) { v := n; }
  }

  /** A failed attempt leaves the same record-low frames, apart from its own victim. */
  lemma RetryRecords(c: Counters, v: nat, i: nat)
    requires Victim(c, v) && i != v
    ensures RecordLow(Retried(c, v), i) <==> RecordLow(c, i)
    ensures RecordLow(c, i) ==> i < v && Rounds(Retried(c, v)[i]) < Rounds(c[i])
  {
    var d := Retried(c, v);
    assert |d| == |c| && d[v] == 1;
    forall j | 0 <= j < v ensures Rounds(d[j]) == Rounds(c[j]) - Rounds(c[v]) {
      assert d[j] == Swept(c, v)[j] == Drop(c[j], Rounds(c[v]));
    }
    if i > v {
      assert Rounds(c[v]) >= 1 && (i < |c| ==> Rounds(c[v]) <= Rounds(c[i]) && Rounds(d[v]) <= Rounds(d[i]));
    }
  }

  lemma RetryKeeps(c: Counters, pins: seq<nat>, v: nat)
    requires Victim(c, v) && !Unpinned(pins, v)
    ensures CanEvict(Retried(c, v), pins) <==> CanEvict(c, pins)
  {
    forall i | i != v ensures RecordLow(Retried(c, v), i) <==> RecordLow(c, i) {
      RetryRecords(c, v, i);
    }
  }

  /** What `k` attempts come to: the frame found, or none yet. */
  ghost predicate FoundIn(c: Counters, pins: seq<nat>, k: nat)
    decreases k
  {
    k > 0 && exists v :: Victim(c, v) && (Unpinned(pins, v) || FoundIn(Retried(c, v), pins, k - 1))
  }

  /** The search ends exactly when some record-low frame is unpinned... */
  lemma {:induction false} SearchEnds(c: Counters, pins: seq<nat>, i: nat)
    requires RecordLow(c, i) && Unpinned(pins, i)
    ensures FoundIn(c, pins, Rounds(c[i]))
    decreases Rounds(c[i])
  {
    var v := VictimExists(c);
    if !Unpinned(pins, v) {
      RetryRecords(c, v, i);
      SearchEnds(Retried(c, v), pins, i);
      FoundMore(Retried(c, v), pins, Rounds(Retried(c, v)[i]), Rounds(c[i]) - 1);
    }
  }

  lemma {:induction false} FoundMore(c: Counters, pins: seq<nat>, k: nat, n: nat)
    requires FoundIn(c, pins, k) && k <= n
    ensures FoundIn(c, pins, n)
    decreases k
  {
    var v :| Victim(c, v) && (Unpinned(pins, v) || FoundIn(Retried(c, v), pins, k - 1));
    if !Unpinned(pins, v) { FoundMore(Retried(c, v), pins, k - 1, n - 1); }
  }

  /** ...and otherwise spins for ever: no number of attempts finds a frame. */
  lemma {:induction false} SearchSpins(c: Counters, pins: seq<nat>, k: nat)
    requires !CanEvict(c, pins)
    ensures !FoundIn(c, pins, k)
    decreases k
  {
    if k > 0 {
      forall v | Victim(c, v) ensures !Unpinned(pins, v) && !FoundIn(Retried(c, v), pins, k - 1) {
        assert RecordLow(c, v);
        RetryKeeps(c, pins, v);
        SearchSpins(Retried(c, v), pins, k - 1);
      }
    }
  }

  lemma SearchEndsIff(c: Counters, pins: seq<nat>)
    ensures (exists k: nat :: FoundIn(c, pins, k)) <==> CanEvict(c, pins)
  {
    if CanEvict(c, pins) {
      var i: nat :| RecordLow(c, i) && Unpinned(pins, i);
      SearchEnds(c, pins, i);
      assert FoundIn(c, pins, Rounds(c[i]));
    } else {
      forall k: nat ensures !FoundIn(c, pins, k) { SearchSpins(c, pins, k); }
    }
  }

  /** With frame 0 unpinned and counters within bounds, `LRU_MAX_PIN` attempts are enough. */
  lemma FrameZeroSuffices(c: Counters, pins: seq<nat>)
    requires c != [] && c[0] <= LRU_MAX_PIN && Unpinned(pins, 0)
    ensures CanEvict(c, pins) && FoundIn(c, pins, LRU_MAX_PIN)
  {
    assert RecordLow(c, 0);
    SearchEnds(c, pins, 0);
    FoundMore(c, pins, Rounds(c[0]), LRU_MAX_PIN);
  }

  /** A pinned frame 0 with a low counter starves every other frame, however many are free to go. */
  lemma FrameZeroStarves(c: Counters, pins: seq<nat>, k: nat)
    requires c != [] && c[0] <= 1 && !Unpinned(pins, 0)
    ensures !FoundIn(c, pins, k)
  {
    forall i: nat | i > 0 ensures !RecordLow(c, i) {
      if i < |c| { assert Rounds(c[0]) <= Rounds(c[i]); }
    }
    SearchSpins(c, pins, k);
  }
}
