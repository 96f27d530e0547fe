/** The four equi-joins and the bag of rows they must produce. */
module Joins {
  import opened Common
  import opened Sorting

  type Row = seq<real>
  type Key = seq<real>
  type Match = (nat, nat)

  function KeyVals(row: Row, idx: seq<nat>): Key {
    seq(|idx|, i requires 0 <= i < |idx| => if idx[i] < |row| then row[idx[i]] else 0.0)
  }

  /** Two rows agree on all pairs of key columns. */
  predicate Agree(l: Row, r: Row, lk: seq<nat>, rk: seq<nat>) {
    forall k :: 0 <= k < |lk| && k < |rk| && lk[k] < |l| && rk[k] < |r| ==> l[lk[k]] == r[rk[k]]
  }

  lemma AgreeIs(l: Row, r: Row, lk: seq<nat>, rk: seq<nat>)
    requires |lk| == |rk| && forall k :: 0 <= k < |lk| ==> lk[k] < |l| && rk[k] < |r|
    ensures KeyVals(l, lk) == KeyVals(r, rk) <==> Agree(l, r, lk, rk)
  {
    var a, b := KeyVals(l, lk), KeyVals(r, rk);
    forall k | 0 <= k < |lk| ensures a[k] == l[lk[k]] && b[k] == r[rk[k]] {
    }
    if Agree(l, r, lk, rk) { assert a == b; }
    if a == b {
      forall k | 0 <= k < |lk| ensures l[lk[k]] == r[rk[k]] { assert a[k] == b[k]; }
    }
  }

  // ---- the bag of joined rows ----

  /** `l` joined with every matching row of `rs`. */
  ghost function RowBag(l: Row, rs: seq<Row>, lk: seq<nat>, rk: seq<nat>): multiset<Row> {
    if rs == [] then multiset{} else
      var n := |rs| - 1;
      RowBag(l, rs[..n], lk, rk) + if KeyVals(l, lk) == KeyVals(rs[n], rk) then multiset{l + rs[n]} else multiset{}
  }

  ghost function JoinBag(ls: seq<Row>, rs: seq<Row>, lk: seq<nat>, rk: seq<nat>): multiset<Row> {
    if ls == [] then multiset{} else
      var n := |ls| - 1;
      JoinBag(ls[..n], rs, lk, rk) + RowBag(ls[n], rs, lk, rk)
  }

  lemma {:induction false} RowBagConcat(l: Row, a: seq<Row>, b: seq<Row>, lk: seq<nat>, rk: seq<nat>)
    ensures RowBag(l, a + b, lk, rk) == RowBag(l, a, lk, rk) + RowBag(l, b, lk, rk)
    decreases |b|
  {
    hide KeyVals;
    if b == [] {
      assert a + b == a;
    } else {
      var n := |b| - 1;
      RowBagConcat(l, a, b[..n], lk, rk);
      assert (a + b)[..|a + b| - 1] == a + b[..n] && (a + b)[|a + b| - 1] == b[n];
      var last := if KeyVals(l, lk) == KeyVals(b[n], rk) then multiset{l + b[n]} else multiset{};
      assert RowBag(l, a + b, lk, rk) == RowBag(l, a + b[..n], lk, rk) + last;
      assert RowBag(l, b, lk, rk) == RowBag(l, b[..n], lk, rk) + last;
    }
  }

  lemma {:induction false} JoinLefts(a: seq<Row>, b: seq<Row>, rs: seq<Row>, lk: seq<nat>, rk: seq<nat>)
    ensures JoinBag(a + b, rs, lk, rk) == JoinBag(a, rs, lk, rk) + JoinBag(b, rs, lk, rk)
    decreases |b|
  {
    hide RowBag;
    if b == [] {
      assert a + b == a;
    } else {
      var n := |b| - 1;
      JoinLefts(a, b[..n], rs, lk, rk);
      assert (a + b)[..|a + b| - 1] == a + b[..n];
    }
  }

  lemma {:induction false} JoinRights(ls: seq<Row>, a: seq<Row>, b: seq<Row>, lk: seq<nat>, rk: seq<nat>)
    ensures JoinBag(ls, a + b, lk, rk) == JoinBag(ls, a, lk, rk) + JoinBag(ls, b, lk, rk)
    decreases |ls|
  {
    hide RowBag;
    if ls != [] {
      JoinRights(ls[..|ls| - 1], a, b, lk, rk);
      RowBagConcat(ls[|ls| - 1], a, b, lk, rk);
    }
  }

  lemma JoinOne(l: Row, rs: seq<Row>, lk: seq<nat>, rk: seq<nat>)
    ensures JoinBag([l], rs, lk, rk) == RowBag(l, rs, lk, rk)
  {
    assert [l][..0] == [];
    assert JoinBag([l][..0], rs, lk, rk) == multiset{};
  }

  lemma {:induction false} RowBagNone(l: Row, rs: seq<Row>, lk: seq<nat>, rk: seq<nat>)
    requires forall j :: 0 <= j < |rs| ==> KeyVals(l, lk) != KeyVals(rs[j], rk)
    ensures RowBag(l, rs, lk, rk) == multiset{}
    decreases |rs|
  {
    if rs != [] { RowBagNone(l, rs[..|rs| - 1], lk, rk); }
  }

  lemma {:induction false} JoinNone(ls: seq<Row>, rs: seq<Row>, lk: seq<nat>, rk: seq<nat>)
    requires forall i, j :: 0 <= i < |ls| && 0 <= j < |rs| ==> KeyVals(ls[i], lk) != KeyVals(rs[j], rk)
    ensures JoinBag(ls, rs, lk, rk) == multiset{}
    decreases |ls|
  {
    hide RowBag;
    if ls != [] {
      JoinNone(ls[..|ls| - 1], rs, lk, rk);
      RowBagNone(ls[|ls| - 1], rs, lk, rk);
    }
  }

  /** Removing one occurrence of a row from a sequence. */
  lemma PullOut(b: seq<Row>, x: Row) returns (j: nat)
    requires x in b
    ensures j < |b| && b == b[..j] + [x] + b[j + 1..]
    ensures multiset(b[..j] + b[j + 1..]) == multiset(b) - multiset{x}
  {
    j :| 0 <= j < |b| && b[j] == x;
    assert b == b[..j] + [x] + b[j + 1..];
  }

  lemma {:induction false} RowBagPermuted(l: Row, a: seq<Row>, b: seq<Row>, lk: seq<nat>, rk: seq<nat>)
    requires multiset(a) == multiset(b)
    ensures RowBag(l, a, lk, rk) == RowBag(l, b, lk, rk)
    decreases |a|
  {
    if a == [] {
      assert |multiset(b)| == |b| && b == [];
    } else {
      var n := |a| - 1;
      assert a == a[..n] + [a[n]];
      assert a[n] in multiset(b);
      var j := PullOut(b, a[n]);
      RowBagPermuted(l, a[..n], b[..j] + b[j + 1..], lk, rk);
      RowBagConcat(l, b[..j], b[j + 1..], lk, rk);
      RowBagConcat(l, b[..j] + [a[n]], b[j + 1..], lk, rk);
      RowBagConcat(l, b[..j], [a[n]], lk, rk);
      RowBagConcat(l, a[..n], [a[n]], lk, rk);
    }
  }

  lemma {:induction false} RightsPermuted(ls: seq<Row>, a: seq<Row>, b: seq<Row>, lk: seq<nat>, rk: seq<nat>)
    requires multiset(a) == multiset(b)
    ensures JoinBag(ls, a, lk, rk) == JoinBag(ls, b, lk, rk)
    decreases |ls|
  {
    hide RowBag;
    if ls != [] {
      RightsPermuted(ls[..|ls| - 1], a, b, lk, rk);
      RowBagPermuted(ls[|ls| - 1], a, b, lk, rk);
    }
  }

  lemma {:induction false} LeftsPermuted(a: seq<Row>, b: seq<Row>, rs: seq<Row>, lk: seq<nat>, rk: seq<nat>)
    requires multiset(a) == multiset(b)
    ensures JoinBag(a, rs, lk, rk) == JoinBag(b, rs, lk, rk)
    decreases |a|
  {
    hide RowBag;
    if a == [] {
      assert |multiset(b)| == |b| && b == [];
    } else {
      var n := |a| - 1;
      assert a == a[..n] + [a[n]];
      assert a[n] in multiset(b);
      var j := PullOut(b, a[n]);
      LeftsPermuted(a[..n], b[..j] + b[j + 1..], rs, lk, rk);
      JoinLefts(b[..j], b[j + 1..], rs, lk, rk);
      JoinLefts(b[..j] + [a[n]], b[j + 1..], rs, lk, rk);
      JoinLefts(b[..j], [a[n]], rs, lk, rk);
      JoinLefts(a[..n], [a[n]], rs, lk, rk);
    }
  }

  // ---- matches and output ----

  predicate InRange(ms: seq<Match>, ls: seq<Row>, rs: seq<Row>) {
    forall i :: 0 <= i < |ms| ==> ms[i].0 < |ls| && ms[i].1 < |rs|
  }

  function Emitted(ms: seq<Match>, ls: seq<Row>, rs: seq<Row>): seq<Row>
    requires InRange(ms, ls, rs)
  {
    seq(|ms|, i requires 0 <= i < |ms| && ms[i].0 < |ls| && ms[i].1 < |rs| => ls[ms[i].0] + rs[ms[i].1])
  }

  lemma EmitMore(ms: seq<Match>, m: Match, ls: seq<Row>, rs: seq<Row>)
    requires InRange(ms, ls, rs) && m.0 < |ls| && m.1 < |rs|
    ensures InRange(ms + [m], ls, rs) && Emitted(ms + [m], ls, rs) == Emitted(ms, ls, rs) + [ls[m.0] + rs[m.1]]
  {
  }

  /** The output loop shared by the joins: left columns first. */
  method Emit(ms: seq<Match>, ls: seq<Row>, rs: seq<Row>) returns (out: seq<Row>)
    requires InRange(ms, ls, rs)
    ensures out == Emitted(ms, ls, rs)
  {
    out := [];
    var i := 0;
    while i < |ms|
      invariant i <= |ms| && |out| == i && forall j :: 0 <= j < i ==> out[j] == ls[ms[j].0] + rs[ms[j].1]
    {
      out := out + [ls[ms[i].0] + rs[ms[i].1]];
      i := i + 1;
    }
  }

  // Key indexes are inside the rows of their side, and both sides have as many.
  predicate Keyed(rows: seq<Row>, idx: seq<nat>) {
    forall i, k :: 0 <= i < |rows| && 0 <= k < |idx| ==> idx[k] < |rows[i]|
  }

  method KeysEqual(l: Row, lk: seq<nat>, r: Row, rk: seq<nat>) returns (equal: bool)
    requires |lk| == |rk| && (forall k :: 0 <= k < |lk| ==> lk[k] < |l| && rk[k] < |r|)
    ensures equal <==> KeyVals(l, lk) == KeyVals(r, rk)
    ensures equal <==> Agree(l, r, lk, rk)
  {
    var i := 0;
    while i < |lk|
      invariant i <= |lk| && forall k :: 0 <= k < i ==> l[lk[k]] == r[rk[k]]
    {
      if l[lk[i]] != r[rk[i]] {
        assert KeyVals(l, lk)[i] != KeyVals(r, rk)[i];
        return false;
      }
      i := i + 1;
    }
    equal := true;
  }

  // ---- nested loops ----

  method NestedLoopJoin(ls: seq<Row>, rs: seq<Row>, lk: seq<nat>, rk: seq<nat>) returns (out: seq<Row>)
    requires |lk| == |rk| && Keyed(ls, lk) && Keyed(rs, rk)
    ensures multiset(out) == JoinBag(ls, rs, lk, rk)
  {
    hide KeyVals, JoinBag, RowBag, Emitted;
    var ms: seq<Match> := [];
    NoneEmitted(ls, rs);
    JoinNone(ls[..0], rs, lk, rk);
    var l := 0;
    while l < |ls|
      invariant l <= |ls| && InRange(ms, ls, rs)
      invariant multiset(Emitted(ms, ls, rs)) == JoinBag(ls[..l], rs, lk, rk)
    {
      RowBagNone(ls[l], rs[..0], lk, rk);
      var r := 0;
      while r < |rs|
        invariant r <= |rs| && InRange(ms, ls, rs)
        invariant multiset(Emitted(ms, ls, rs)) == JoinBag(ls[..l], rs, lk, rk) + RowBag(ls[l], rs[..r], lk, rk)
      {
        var equal := KeysEqual(ls[l], lk, rs[r], rk);
        RowBagOne(ls[l], rs[r], lk, rk);
        RowBagConcat(ls[l], rs[..r], [rs[r]], lk, rk);
        assert rs[..r + 1] == rs[..r] + [rs[r]];
        if equal {
          EmitMore(ms, (l, r), ls, rs);
          ms := ms + [(l, r)];
        }
        r := r + 1;
      }
      assert rs[..r] == rs && ls[..l + 1] == ls[..l] + [ls[l]];
      JoinOne(ls[l], rs, lk, rk);
      JoinLefts(ls[..l], [ls[l]], rs, lk, rk);
      l := l + 1;
    }
    assert ls[..l] == ls;
    out := Emit(ms, ls, rs);
  }

  // ---- hash tables over the left rows ----

  type Table = map<Key, seq<nat>>

  /** The positions of the rows with a key, in order. */
  function Positions(ls: seq<Row>, lk: seq<nat>, key: Key): seq<nat> {
    if ls == [] then [] else
      var n := |ls| - 1;
      Positions(ls[..n], lk, key) + if KeyVals(ls[n], lk) == key then [n] else []
  }

  lemma {:induction false} PositionsBound(ls: seq<Row>, lk: seq<nat>, key: Key)
    ensures forall i :: 0 <= i < |Positions(ls, lk, key)| ==> Positions(ls, lk, key)[i] < |ls|
    decreases |ls|
  {
    hide KeyVals;
    if ls != [] { PositionsBound(ls[..|ls| - 1], lk, key); }
  }

  ghost predicate Files(t: Table, ls: seq<Row>, lk: seq<nat>) {
    forall key :: (if key in t then t[key] else []) == Positions(ls, lk, key)
  }

  method Build(ls: seq<Row>, lk: seq<nat>) returns (t: Table)
    ensures Files(t, ls, lk)
  {
    hide KeyVals;
    t := map[];
    var i := 0;
    while i < |ls|
      invariant i <= |ls| && Files(t, ls[..i], lk)
    {
      var key := KeyVals(ls[i], lk);
      assert ls[..i + 1][..i] == ls[..i];
      t := t[key := (if key in t then t[key] else []) + [i]];
      i := i + 1;
    }
    assert ls[..i] == ls;
  }

  /** The rows that one right row contributes, by position. */
  ghost function Probed(ps: seq<nat>, ls: seq<Row>, r: Row): multiset<Row> {
    if ps == [] then multiset{} else
      var n := |ps| - 1;
      Probed(ps[..n], ls, r) + if ps[n] < |ls| then multiset{ls[ps[n]] + r} else multiset{}
  }

  lemma {:induction false} ProbedStays(ps: seq<nat>, ls: seq<Row>, more: seq<Row>, r: Row)
    requires forall i :: 0 <= i < |ps| ==> ps[i] < |ls|
    ensures Probed(ps, ls + more, r) == Probed(ps, ls, r)
    decreases |ps|
  {
    if ps != [] {
      ProbedStays(ps[..|ps| - 1], ls, more, r);
    }
  }

  /** Probing the table with a right row's key finds exactly the rows it joins with. */
  lemma {:induction false} ProbeJoins(ls: seq<Row>, r: Row, lk: seq<nat>, rk: seq<nat>)
    ensures Probed(Positions(ls, lk, KeyVals(r, rk)), ls, r) == JoinBag(ls, [r], lk, rk)
    decreases |ls|
  {
    hide KeyVals, JoinBag;
    JoinUnfold(ls, [r], lk, rk);
    if ls != [] {
      var n := |ls| - 1;
      var init, key := ls[..n], KeyVals(r, rk);
      var ps := Positions(init, lk, key);
      ProbeJoins(init, r, lk, rk);
      PositionsBound(init, lk, key);
      ProbedStays(ps, init, [ls[n]], r);
      assert ls == init + [ls[n]];
      assert (ps + [n])[..|ps|] == ps && ps + [] == ps;
      RowBagOne(ls[n], r, lk, rk);
    }
  }

  lemma JoinUnfold(ls: seq<Row>, rs: seq<Row>, lk: seq<nat>, rk: seq<nat>)
    ensures ls == [] ==> JoinBag(ls, rs, lk, rk) == multiset{}
    ensures ls != [] ==>
      JoinBag(ls, rs, lk, rk) == JoinBag(ls[..|ls| - 1], rs, lk, rk) + RowBag(ls[|ls| - 1], rs, lk, rk)
  {
    hide RowBag;
  }

  lemma RowBagOne(l: Row, r: Row, lk: seq<nat>, rk: seq<nat>)
    ensures RowBag(l, [r], lk, rk) == if KeyVals(l, lk) == KeyVals(r, rk) then multiset{l + r} else multiset{}
  {
    hide KeyVals;
    assert RowBag(l, [r][..0], lk, rk) == multiset{};
  }

  method HashJoin(ls: seq<Row>, rs: seq<Row>, lk: seq<nat>, rk: seq<nat>) returns (out: seq<Row>)
    ensures multiset(out) == JoinBag(ls, rs, lk, rk)
  {
    hide KeyVals, Positions, Probed, JoinBag, RowBag;
    var table := Build(ls, lk);
    var ms: seq<Match> := [];
    JoinNone(ls, [], lk, rk);
    var p := 0;
    while p < |rs|
      invariant p <= |rs| && InRange(ms, ls, rs)
      invariant multiset(Emitted(ms, ls, rs)) == JoinBag(ls, rs[..p], lk, rk)
    {
      var key := KeyVals(rs[p], rk);
      var hits := if key in table then table[key] else [];
      ms := Probe(ms, hits, p, ls, rs, JoinBag(ls, rs[..p], lk, rk), lk, key);
      ProbeJoins(ls, rs[p], lk, rk);
      JoinRights(ls, rs[..p], [rs[p]], lk, rk);
      assert rs[..p + 1] == rs[..p] + [rs[p]];
      p := p + 1;
    }
    assert rs[..p] == rs;
    out := Emit(ms, ls, rs);
  }

  method Probe(ms: seq<Match>, hits: seq<nat>, p: nat, ls: seq<Row>, rs: seq<Row>, ghost bag: multiset<Row>,
               ghost lk: seq<nat>, ghost key: Key)
    returns (more: seq<Match>)
    requires InRange(ms, ls, rs) && p < |rs| && multiset(Emitted(ms, ls, rs)) == bag && hits == Positions(ls, lk, key)
    ensures InRange(more, ls, rs) && multiset(Emitted(more, ls, rs)) == bag + Probed(hits, ls, rs[p])
  {
    hide Positions;
    PositionsBound(ls, lk, key);
    more := ms;
    var i := 0;
    while i < |hits|
      invariant i <= |hits| && InRange(more, ls, rs)
      invariant multiset(Emitted(more, ls, rs)) == bag + Probed(hits[..i], ls, rs[p])
    {
      EmitMore(more, (hits[i], p), ls, rs);
      more := more + [(hits[i], p)];
      assert hits[..i + 1][..i] == hits[..i];
      i := i + 1;
    }
    assert hits[..i] == hits;
  }

  // ---- index nested loops ----

  const ROW_LIMIT: nat := 0x1_0000_0000

  /** The hash index from join keys to build-side rows; a row's position sits in the 32-bit row number. */
  class HashIndex {
    var buckets: map<Key, seq<RID>>

    constructor ()
      ensures buckets == map[]
    {
      buckets := map[];
    }

    method Insert(key: Key, rid: RID)
      modifies this
      ensures buckets == old(buckets)[key := (if key in old(buckets) then old(buckets)[key] else []) + [rid]]
    {
      buckets := buckets[key := (if key in buckets then buckets[key] else []) + [rid]];
    }

    method Find(key: Key) returns (rids: seq<RID>)
      ensures rids == if key in buckets then buckets[key] else []
    {
      rids := if key in buckets then buckets[key] else [];
    }
  }

  function RidOf(l: nat): RID { RID(0, l % ROW_LIMIT) }

  function RidsOf(ps: seq<nat>): seq<RID> {
    seq(|ps|, i requires 0 <= i < |ps| => RidOf(ps[i]))
  }

  ghost predicate Indexes(b: map<Key, seq<RID>>, ls: seq<Row>, lk: seq<nat>) {
    forall key :: (if key in b then b[key] else []) == RidsOf(Positions(ls, lk, key))
  }

  lemma IndexMore(b: map<Key, seq<RID>>, ls: seq<Row>, i: nat, lk: seq<nat>)
    requires i < |ls| && Indexes(b, ls[..i], lk)
    ensures var key := KeyVals(ls[i], lk);
      Indexes(b[key := (if key in b then b[key] else []) + [RidOf(i)]], ls[..i + 1], lk)
  {
    hide KeyVals, Positions, RidsOf, RidOf;
    var key := KeyVals(ls[i], lk);
    var b' := b[key := (if key in b then b[key] else []) + [RidOf(i)]];
    forall k ensures (if k in b' then b'[k] else []) == RidsOf(Positions(ls[..i + 1], lk, k)) {
      PositionsMore(ls, i, lk, k);
      RidsMore(Positions(ls[..i], lk, k), i);
    }
  }

  lemma PositionsMore(ls: seq<Row>, i: nat, lk: seq<nat>, key: Key)
    requires i < |ls|
    ensures Positions(ls[..i + 1], lk, key) ==
      if KeyVals(ls[i], lk) == key then Positions(ls[..i], lk, key) + [i] else Positions(ls[..i], lk, key)
  {
    hide KeyVals;
    assert ls[..i + 1][..i] == ls[..i];
    assert Positions(ls[..i], lk, key) + [] == Positions(ls[..i], lk, key);
  }

  lemma RidsMore(ps: seq<nat>, i: nat)
    ensures RidsOf(ps + [i]) == RidsOf(ps) + [RidOf(i)]
  {
  }

  method IndexNLJoin(ls: seq<Row>, rs: seq<Row>, lk: seq<nat>, rk: seq<nat>) returns (out: seq<Row>)
    requires |ls| <= ROW_LIMIT
    ensures multiset(out) == JoinBag(ls, rs, lk, rk)
  {
    hide KeyVals, Positions, Probed, JoinBag, RowBag, Indexes;
    var index := new HashIndex();
    var i := 0;
    NothingIndexed(ls, lk);
    while i < |ls|
      invariant i <= |ls| && Indexes(index.buckets, ls[..i], lk)
    {
      IndexMore(index.buckets, ls, i, lk);
      index.Insert(KeyVals(ls[i], lk), RidOf(i));
      i := i + 1;
    }
    assert ls[..i] == ls;
    var ms: seq<Match> := [];
    JoinNone(ls, [], lk, rk);
    var p := 0;
    while p < |rs|
      invariant p <= |rs| && InRange(ms, ls, rs) && Indexes(index.buckets, ls, lk)
      invariant multiset(Emitted(ms, ls, rs)) == JoinBag(ls, rs[..p], lk, rk)
    {
      var key := KeyVals(rs[p], rk);
      var rids := index.Find(key);
      FoundRows(index.buckets, ls, lk, key);
      var hits := RowsOfRids(rids, ls, lk, key);
      ms := Probe(ms, hits, p, ls, rs, JoinBag(ls, rs[..p], lk, rk), lk, key);
      ProbeJoins(ls, rs[p], lk, rk);
      JoinRights(ls, rs[..p], [rs[p]], lk, rk);
      assert rs[..p + 1] == rs[..p] + [rs[p]];
      p := p + 1;
    }
    assert rs[..p] == rs;
    out := Emit(ms, ls, rs);
  }

  lemma NothingIndexed(ls: seq<Row>, lk: seq<nat>)
    ensures Indexes(map[], ls[..0], lk)
  {
  }

  lemma FoundRows(b: map<Key, seq<RID>>, ls: seq<Row>, lk: seq<nat>, key: Key)
    requires Indexes(b, ls, lk)
    ensures (if key in b then b[key] else []) == RidsOf(Positions(ls, lk, key))
  {
  }

  /** Reading row positions back out of the found RIDs. */
  method RowsOfRids(rids: seq<RID>, ghost ls: seq<Row>, ghost lk: seq<nat>, ghost key: Key) returns (hits: seq<nat>)
    requires |ls| <= ROW_LIMIT && rids == RidsOf(Positions(ls, lk, key))
    ensures hits == Positions(ls, lk, key)
  {
    hide Positions;
    PositionsBound(ls, lk, key);
    hits := [];
    var i := 0;
    while i < |rids|
      invariant i <= |rids| && hits == Positions(ls, lk, key)[..i]
    {
      assert rids[i] == RidOf(Positions(ls, lk, key)[i]);
      hits := hits + [rids[i].rowIdx];
      i := i + 1;
    }
  }

  // ---- merge join ----

  /** Lexicographic comparison of two keys of one length. */
  function KeyCmp(a: Key, b: Key): int {
    if a == [] || b == [] then 0
    else if a[0] < b[0] then -1
    else if a[0] > b[0] then 1
    else KeyCmp(a[1..], b[1..])
  }

  lemma {:induction false} KeyOrder(a: Key, b: Key, c: Key)
    requires |a| == |b| == |c|
    ensures KeyCmp(a, b) == 0 <==> a == b
    ensures KeyCmp(a, b) == -KeyCmp(b, a)
    ensures KeyCmp(a, b) <= 0 && KeyCmp(b, c) <= 0 ==> KeyCmp(a, c) <= 0
    ensures KeyCmp(a, b) < 0 && KeyCmp(b, c) <= 0 ==> KeyCmp(a, c) < 0
    ensures KeyCmp(a, b) <= 0 && KeyCmp(b, c) < 0 ==> KeyCmp(a, c) < 0
    decreases |a|
  {
    if a != [] {
      KeyOrder(a[1..], b[1..], c[1..]);
      assert a == [a[0]] + a[1..] && b == [b[0]] + b[1..];
    }
  }

  function ByKey(idx: seq<nat>): (Row, Row) -> bool {
    (a: Row, b: Row) => KeyCmp(KeyVals(a, idx), KeyVals(b, idx)) < 0
  }

  function AnyRow(): Row -> bool { (r: Row) => true }

  lemma ByKeyOrders(idx: seq<nat>)
    ensures WeakOrder(ByKey(idx), AnyRow())
  {
    var less := ByKey(idx);
    forall a, b, c
      ensures !less(a, a)
      ensures less(a, b) && less(b, c) ==> less(a, c)
      ensures !less(a, b) && !less(b, c) ==> !less(a, c)
    {
      var x, y, z := KeyVals(a, idx), KeyVals(b, idx), KeyVals(c, idx);
      KeyOrder(x, y, z);
      KeyOrder(x, x, x);
      KeyOrder(y, z, x);
      KeyOrder(z, y, x);
      KeyOrder(z, x, y);
    }
  }

  /** Comparing a left row's key with a right row's. */
  method CompareKeys(l: Row, lk: seq<nat>, r: Row, rk: seq<nat>) returns (c: int)
    requires |lk| == |rk| && (forall k :: 0 <= k < |lk| ==> lk[k] < |l| && rk[k] < |r|)
    ensures c == KeyCmp(KeyVals(l, lk), KeyVals(r, rk))
  {
    var x, y := KeyVals(l, lk), KeyVals(r, rk);
    var t := 0;
    assert x[0..] == x && y[0..] == y;
    while t < |lk|
      invariant t <= |lk| && KeyCmp(x, y) == KeyCmp(x[t..], y[t..])
    {
      assert x[t..][0] == l[lk[t]] && y[t..][0] == r[rk[t]];
      assert x[t..][1..] == x[t + 1..] && y[t..][1..] == y[t + 1..];
      if l[lk[t]] < r[rk[t]] { return -1; }
      if l[lk[t]] > r[rk[t]] { return 1; }
      t := t + 1;
    }
    c := 0;
  }

  ghost predicate SortedBy(rows: seq<Row>, idx: seq<nat>) {
    forall i, j :: 0 <= i <= j < |rows| ==> KeyCmp(KeyVals(rows[i], idx), KeyVals(rows[j], idx)) <= 0
  }

  lemma SortedByKey(rows: seq<Row>, idx: seq<nat>)
    requires Ordered(rows, ByKey(idx))
    ensures SortedBy(rows, idx)
  {
    forall i, j | 0 <= i <= j < |rows| ensures KeyCmp(KeyVals(rows[i], idx), KeyVals(rows[j], idx)) <= 0 {
      KeyOrder(KeyVals(rows[i], idx), KeyVals(rows[j], idx), KeyVals(rows[i], idx));
      if i < j { assert !ByKey(idx)(rows[j], rows[i]); }
    }
  }

  /** A left row below the first right key joins with nothing to come; and the other way round. */
  lemma LeftBehind(ls: seq<Row>, rs: seq<Row>, i: nat, j: nat, lk: seq<nat>, rk: seq<nat>)
    requires SortedBy(rs, rk) && |lk| == |rk| && i < |ls| && j < |rs|
    requires KeyCmp(KeyVals(ls[i], lk), KeyVals(rs[j], rk)) < 0
    ensures JoinBag(ls[i..], rs[j..], lk, rk) == JoinBag(ls[i + 1..], rs[j..], lk, rk)
  {
    hide JoinBag, KeyVals;
    var x := KeyVals(ls[i], lk);
    forall a, b | 0 <= a < 1 && 0 <= b < |rs[j..]| ensures KeyVals([ls[i]][a], lk) != KeyVals(rs[j..][b], rk) {
      assert rs[j..][b] == rs[j + b];
      KeyLengths(ls[i], rs[j], lk, rk);
      KeyLengths(ls[i], rs[j + b], lk, rk);
      KeyOrder(x, KeyVals(rs[j], rk), KeyVals(rs[j + b], rk));
      KeyOrder(x, KeyVals(rs[j + b], rk), x);
    }
    JoinNone([ls[i]], rs[j..], lk, rk);
    JoinLefts([ls[i]], ls[i + 1..], rs[j..], lk, rk);
    assert ls[i..] == [ls[i]] + ls[i + 1..];
  }

  lemma RightBehind(ls: seq<Row>, rs: seq<Row>, i: nat, j: nat, lk: seq<nat>, rk: seq<nat>)
    requires SortedBy(ls, lk) && |lk| == |rk| && i < |ls| && j < |rs|
    requires KeyCmp(KeyVals(ls[i], lk), KeyVals(rs[j], rk)) > 0
    ensures JoinBag(ls[i..], rs[j..], lk, rk) == JoinBag(ls[i..], rs[j + 1..], lk, rk)
  {
    hide JoinBag, KeyVals;
    var y := KeyVals(rs[j], rk);
    forall a, b | 0 <= a < |ls[i..]| && 0 <= b < 1 ensures KeyVals(ls[i..][a], lk) != KeyVals([rs[j]][b], rk) {
      assert ls[i..][a] == ls[i + a];
      KeyLengths(ls[i], rs[j], lk, rk);
      KeyLengths(ls[i + a], rs[j], lk, rk);
      KeyOrder(y, KeyVals(ls[i], lk), KeyVals(ls[i + a], lk));
      KeyOrder(KeyVals(ls[i], lk), y, y);
      KeyOrder(y, KeyVals(ls[i + a], lk), y);
    }
    JoinNone(ls[i..], [rs[j]], lk, rk);
    JoinRights(ls[i..], [rs[j]], rs[j + 1..], lk, rk);
    assert rs[j..] == [rs[j]] + rs[j + 1..];
  }

  lemma KeyLengths(l: Row, r: Row, lk: seq<nat>, rk: seq<nat>)
    requires |lk| == |rk|
    ensures |KeyVals(l, lk)| == |KeyVals(r, rk)| == |lk|
  {
  }

  /** Rows `from..to` all have key `k`. */
  ghost predicate Block(rows: seq<Row>, idx: seq<nat>, from: nat, to: nat, k: Key) {
    from < to <= |rows| && forall i :: from <= i < to ==> KeyVals(rows[i], idx) == k
  }

  lemma AfterBlock(rows: seq<Row>, idx: seq<nat>, from: nat, to: nat, k: Key, i: nat)
    requires SortedBy(rows, idx) && Block(rows, idx, from, to, k) && to <= i < |rows| && KeyVals(rows[to], idx) != k
    ensures KeyVals(rows[i], idx) != k && KeyCmp(k, KeyVals(rows[i], idx)) < 0
  {
    var a, b := KeyVals(rows[to], idx), KeyVals(rows[i], idx);
    assert KeyVals(rows[from], idx) == k;
    assert KeyCmp(k, a) <= 0 && KeyCmp(a, b) <= 0;
    KeyOrder(k, a, b);
    KeyOrder(k, b, k);
  }

  /** Inside the block all keys are `k`, behind it none is. */
  lemma BlockKeys(rows: seq<Row>, idx: seq<nat>, from: nat, to: nat, k: Key)
    requires SortedBy(rows, idx) && Block(rows, idx, from, to, k)
    requires to < |rows| ==> KeyVals(rows[to], idx) != k
    ensures forall x :: 0 <= x < |rows[from..to]| ==> KeyVals(rows[from..to][x], idx) == k
    ensures forall x :: 0 <= x < |rows[to..]| ==> KeyVals(rows[to..][x], idx) != k
  {
    hide KeyVals, SortedBy;
    forall x | 0 <= x < |rows[to..]| ensures KeyVals(rows[to..][x], idx) != k {
      assert rows[to..][x] == rows[to + x];
      AfterBlock(rows, idx, from, to, k, to + x);
    }
  }

  /** The joins of two sorted inputs that start with blocks of one key: the blocks join each other only. */
  lemma BlockSplit(ls: seq<Row>, rs: seq<Row>, i: nat, ie: nat, j: nat, je: nat, lk: seq<nat>, rk: seq<nat>, k: Key)
    requires SortedBy(ls, lk) && SortedBy(rs, rk) && |lk| == |rk|
    requires Block(ls, lk, i, ie, k) && Block(rs, rk, j, je, k)
    requires (ie < |ls| ==> KeyVals(ls[ie], lk) != k) && (je < |rs| ==> KeyVals(rs[je], rk) != k)
    ensures JoinBag(ls[i..], rs[j..], lk, rk) ==
      JoinBag(ls[i..ie], rs[j..je], lk, rk) + JoinBag(ls[ie..], rs[je..], lk, rk)
  {
    hide JoinBag, KeyVals, SortedBy;
    var la, lb, ra, rb := ls[i..ie], ls[ie..], rs[j..je], rs[je..];
    assert ls[i..] == la + lb && rs[j..] == ra + rb;
    BlockKeys(ls, lk, i, ie, k);
    BlockKeys(rs, rk, j, je, k);
    JoinNone(la, rb, lk, rk);
    JoinNone(lb, ra, lk, rk);
    JoinLefts(la, lb, ra + rb, lk, rk);
    JoinRights(la, ra, rb, lk, rk);
    JoinRights(lb, ra, rb, lk, rk);
  }

  /** The cross product of two blocks with one key. */
  method CrossBlocks(ms: seq<Match>, ls: seq<Row>, rs: seq<Row>, i: nat, ie: nat, j: nat, je: nat,
                     ghost lk: seq<nat>, ghost rk: seq<nat>, ghost k: Key)
    returns (more: seq<Match>)
    requires InRange(ms, ls, rs) && Block(ls, lk, i, ie, k) && Block(rs, rk, j, je, k)
    ensures InRange(more, ls, rs)
    ensures multiset(Emitted(more, ls, rs)) == multiset(Emitted(ms, ls, rs)) + JoinBag(ls[i..ie], rs[j..je], lk, rk)
  {
    hide KeyVals, JoinBag, RowBag, Emitted;
    more := ms;
    ghost var bag := multiset(Emitted(ms, ls, rs));
    var li := i;
    JoinUnfold(ls[i..i], rs[j..je], lk, rk);
    while li < ie
      invariant i <= li <= ie && InRange(more, ls, rs)
      invariant multiset(Emitted(more, ls, rs)) == bag + JoinBag(ls[i..li], rs[j..je], lk, rk)
    {
      more := CrossRow(more, ls, rs, li, j, je, lk, rk, k);
      JoinUnfold(ls[i..li + 1], rs[j..je], lk, rk);
      assert ls[i..li + 1][..li - i] == ls[i..li];
      li := li + 1;
    }
  }

  method CrossRow(ms: seq<Match>, ls: seq<Row>, rs: seq<Row>, li: nat, j: nat, je: nat,
                  ghost lk: seq<nat>, ghost rk: seq<nat>, ghost k: Key)
    returns (more: seq<Match>)
    requires InRange(ms, ls, rs) && li < |ls| && KeyVals(ls[li], lk) == k && Block(rs, rk, j, je, k)
    ensures InRange(more, ls, rs)
    ensures multiset(Emitted(more, ls, rs)) == multiset(Emitted(ms, ls, rs)) + RowBag(ls[li], rs[j..je], lk, rk)
  {
    hide KeyVals, Emitted, RowBag;
    more := ms;
    ghost var bag := multiset(Emitted(ms, ls, rs));
    var rj := j;
    RowBagNone(ls[li], rs[j..j], lk, rk);
    while rj < je
      invariant j <= rj <= je && InRange(more, ls, rs)
      invariant multiset(Emitted(more, ls, rs)) == bag + RowBag(ls[li], rs[j..rj], lk, rk)
    {
      EmitMore(more, (li, rj), ls, rs);
      more := more + [(li, rj)];
      RowBagOne(ls[li], rs[rj], lk, rk);
      RowBagConcat(ls[li], rs[j..rj], [rs[rj]], lk, rk);
      assert rs[j..rj + 1] == rs[j..rj] + [rs[rj]];
      rj := rj + 1;
    }
  }

  method MergeJoin(left: seq<Row>, right: seq<Row>, lk: seq<nat>, rk: seq<nat>) returns (out: seq<Row>)
    requires |lk| == |rk| && Keyed(left, lk) && Keyed(right, rk)
    ensures multiset(out) == JoinBag(left, right, lk, rk)
  {
    hide KeyVals, JoinBag, WeakOrder, Ordered;
    ByKeyOrders(lk);
    ByKeyOrders(rk);
    var ls := Sort(left, ByKey(lk), AnyRow());
    var rs := Sort(right, ByKey(rk), AnyRow());
    SortedByKey(ls, lk);
    SortedByKey(rs, rk);
    LeftsPermuted(left, ls, right, lk, rk);
    RightsPermuted(ls, right, rs, lk, rk);
    StillKeyed(left, ls, lk);
    StillKeyed(right, rs, rk);

    var ms := MergeSorted(ls, rs, lk, rk);
    out := Emit(ms, ls, rs);
  }

  /** The two cursors over sorted inputs, and the blocks of equal keys they meet. */
  method MergeSorted(ls: seq<Row>, rs: seq<Row>, lk: seq<nat>, rk: seq<nat>) returns (ms: seq<Match>)
    requires |lk| == |rk| && Keyed(ls, lk) && Keyed(rs, rk) && SortedBy(ls, lk) && SortedBy(rs, rk)
    ensures InRange(ms, ls, rs) && multiset(Emitted(ms, ls, rs)) == JoinBag(ls, rs, lk, rk)
  {
    hide KeyVals, JoinBag, Emitted, SortedBy, Block;
    ghost var all := JoinBag(ls, rs, lk, rk);
    ms := [];
    NoneEmitted(ls, rs);
    var i, j := 0, 0;
    assert ls[0..] == ls && rs[0..] == rs;
    while i < |ls| && j < |rs|
      invariant 0 <= i <= |ls| && 0 <= j <= |rs| && InRange(ms, ls, rs)
      invariant multiset(Emitted(ms, ls, rs)) + JoinBag(ls[i..], rs[j..], lk, rk) == all
      decreases |ls| - i + |rs| - j
    {
      var c := CompareKeys(ls[i], lk, rs[j], rk);
      if c < 0 {
        LeftBehind(ls, rs, i, j, lk, rk);
        i := i + 1;
      } else if c > 0 {
        RightBehind(ls, rs, i, j, lk, rk);
        j := j + 1;
      } else {
        ghost var k := KeyVals(ls[i], lk);
        var je := RightBlock(ls[i], lk, rs, rk, j);
        var ie := LeftBlock(ls, lk, rs[j], rk, i);
        BlockBounds(ls, lk, i, ie, k);
        BlockBounds(rs, rk, j, je, k);
        BlockSplit(ls, rs, i, ie, j, je, lk, rk, k);
        ms := CrossBlocks(ms, ls, rs, i, ie, j, je, lk, rk, k);
        i, j := ie, je;
      }
    }
    JoinNone(ls[i..], rs[j..], lk, rk);
  }

  lemma BlockBounds(rows: seq<Row>, idx: seq<nat>, from: nat, to: nat, k: Key)
    requires Block(rows, idx, from, to, k)
    ensures from < to <= |rows|
  {
  }

  lemma NoneEmitted(ls: seq<Row>, rs: seq<Row>)
    ensures InRange([], ls, rs) && Emitted([], ls, rs) == []
  {
  }

  lemma StillKeyed(a: seq<Row>, b: seq<Row>, idx: seq<nat>)
    requires multiset(a) == multiset(b) && Keyed(a, idx)
    ensures Keyed(b, idx)
  {
    forall i, k | 0 <= i < |b| && 0 <= k < |idx| ensures idx[k] < |b[i]| {
      assert b[i] in multiset(a);
    }
  }

  // The end of the block of right rows with the key of `l`.
  method RightBlock(l: Row, lk: seq<nat>, rs: seq<Row>, rk: seq<nat>, j: nat) returns (je: nat)
    requires j < |rs| && |lk| == |rk| && Keyed([l], lk)
    requires Keyed(rs, rk) && KeyCmp(KeyVals(l, lk), KeyVals(rs[j], rk)) == 0
    ensures Block(rs, rk, j, je, KeyVals(l, lk)) && (je < |rs| ==> KeyVals(rs[je], rk) != KeyVals(l, lk))
  {
    hide KeyVals;
    assert forall k :: 0 <= k < |lk| ==> lk[k] < |[l][0]|;
    je := j;
    while je < |rs|
      invariant j <= je <= |rs| && (je == j ==> KeyCmp(KeyVals(l, lk), KeyVals(rs[j], rk)) == 0)
      invariant forall i :: j <= i < je ==> KeyVals(rs[i], rk) == KeyVals(l, lk)
    {
      var c := CompareKeys(l, lk, rs[je], rk);
      KeyLengths(l, rs[je], lk, rk);
      KeyOrder(KeyVals(l, lk), KeyVals(rs[je], rk), KeyVals(l, lk));
      if c != 0 { return; }
      je := je + 1;
    }
  }

  // The end of the block of left rows with the key of `r`.
  method LeftBlock(ls: seq<Row>, lk: seq<nat>, r: Row, rk: seq<nat>, i: nat) returns (ie: nat)
    requires i < |ls| && |lk| == |rk| && Keyed(ls, lk) && Keyed([r], rk)
    requires KeyCmp(KeyVals(ls[i], lk), KeyVals(r, rk)) == 0
    ensures Block(ls, lk, i, ie, KeyVals(ls[i], lk)) && (ie < |ls| ==> KeyVals(ls[ie], lk) != KeyVals(ls[i], lk))
    ensures KeyVals(ls[i], lk) == KeyVals(r, rk)
  {
    hide KeyVals;
    assert forall k :: 0 <= k < |rk| ==> rk[k] < |[r][0]|;
    KeyLengths(ls[i], r, lk, rk);
    KeyOrder(KeyVals(ls[i], lk), KeyVals(r, rk), KeyVals(ls[i], lk));
    ie := i;
    while ie < |ls|
      invariant i <= ie <= |ls| && (ie == i ==> KeyCmp(KeyVals(ls[i], lk), KeyVals(r, rk)) == 0)
      invariant forall x :: i <= x < ie ==> KeyVals(ls[x], lk) == KeyVals(r, rk)
    {
      var c := CompareKeys(ls[ie], lk, r, rk);
      KeyLengths(ls[ie], r, lk, rk);
      KeyOrder(KeyVals(ls[ie], lk), KeyVals(r, rk), KeyVals(ls[ie], lk));
      if c != 0 { return; }
      ie := ie + 1;
    }
  }

  /** All four joins produce the same rows the same number of times. */
  method JoinAll(ls: seq<Row>, rs: seq<Row>, lk: seq<nat>, rk: seq<nat>)
    returns (nested: seq<Row>, hashed: seq<Row>, merged: seq<Row>, indexed: seq<Row>)
    requires |lk| == |rk| && Keyed(ls, lk) && Keyed(rs, rk) && |ls| <= ROW_LIMIT
    ensures multiset(nested) == multiset(hashed) == multiset(merged) == multiset(indexed) == JoinBag(ls, rs, lk, rk)
  {
    nested := NestedLoopJoin(ls, rs, lk, rk);
    hashed := HashJoin(ls, rs, lk, rk);
    merged := MergeJoin(ls, rs, lk, rk);
    indexed := IndexNLJoin(ls, rs, lk, rk);
  }

  /** A pair of rows is joined once if it agrees on all key columns, left columns first, and not at all otherwise; the
      bag of two lists is the sum of the bags of their parts. */
  lemma JoinPairs(ls: seq<Row>, ms: seq<Row>, rs: seq<Row>, qs: seq<Row>, l: Row, r: Row, lk: seq<nat>, rk: seq<nat>)
    requires |lk| == |rk| && Keyed([l], lk) && Keyed([r], rk)
    ensures JoinBag([l], [r], lk, rk) == if Agree(l, r, lk, rk) then multiset{l + r} else multiset{}
    ensures JoinBag([], rs, lk, rk) == JoinBag(ls, [], lk, rk) == multiset{}
    ensures JoinBag(ls + ms, rs, lk, rk) == JoinBag(ls, rs, lk, rk) + JoinBag(ms, rs, lk, rk)
    ensures JoinBag(ls, rs + qs, lk, rk) == JoinBag(ls, rs, lk, rk) + JoinBag(ls, qs, lk, rk)
  {
    hide KeyVals, RowBag, JoinBag, Agree;
    assert [l][0] == l && [r][0] == r;
    AgreeIs(l, r, lk, rk);
    JoinOne(l, [r], lk, rk);
    RowBagOne(l, r, lk, rk);
    JoinNone([], rs, lk, rk);
    JoinNone(ls, [], lk, rk);
    JoinLefts(ls, ms, rs, lk, rk);
    JoinRights(ls, rs, qs, lk, rk);
  }

  /** The bag holds a row exactly when it is a left row joined with a right row of the same key. */
  lemma {:induction false} JoinBagHas(ls: seq<Row>, rs: seq<Row>, lk: seq<nat>, rk: seq<nat>, x: Row)
    ensures x in JoinBag(ls, rs, lk, rk) <==>
      exists i, j :: 0 <= i < |ls| && 0 <= j < |rs| && KeyVals(ls[i], lk) == KeyVals(rs[j], rk) && x == ls[i] + rs[j]
    decreases |ls|
  {
    hide KeyVals, RowBag;
    if ls != [] {
      var n := |ls| - 1;
      JoinBagHas(ls[..n], rs, lk, rk, x);
      RowBagHas(ls[n], rs, lk, rk, x);
      if x in JoinBag(ls[..n], rs, lk, rk) {
        var i, j :| 0 <= i < n && 0 <= j < |rs| && KeyVals(ls[..n][i], lk) == KeyVals(rs[j], rk) &&
          x == ls[..n][i] + rs[j];
        assert ls[i] == ls[..n][i];
      }
      if i, j :| 0 <= i < |ls| && 0 <= j < |rs| && KeyVals(ls[i], lk) == KeyVals(rs[j], rk) && x == ls[i] + rs[j] {
        if i < n { assert ls[..n][i] == ls[i]; }
      }
    }
  }

  lemma {:induction false} RowBagHas(l: Row, rs: seq<Row>, lk: seq<nat>, rk: seq<nat>, x: Row)
    ensures x in RowBag(l, rs, lk, rk) <==>
      exists j :: 0 <= j < |rs| && KeyVals(l, lk) == KeyVals(rs[j], rk) && x == l + rs[j]
    decreases |rs|
  {
    hide KeyVals, RowBag;
    RowBagNone(l, [], lk, rk);
    if rs != [] {
      var n := |rs| - 1;
      RowBagOne(l, rs[n], lk, rk);
      RowBagConcat(l, rs[..n], [rs[n]], lk, rk);
      assert rs == rs[..n] + [rs[n]];
      RowBagHas(l, rs[..n], lk, rk, x);
      if x in RowBag(l, rs[..n], lk, rk) {
        var j :| 0 <= j < n && KeyVals(l, lk) == KeyVals(rs[..n][j], rk) && x == l + rs[..n][j];
        assert rs[j] == rs[..n][j];
      }
      if j :| 0 <= j < |rs| && KeyVals(l, lk) == KeyVals(rs[j], rk) && x == l + rs[j] {
        if j < n { assert rs[..n][j] == rs[j]; }
      }
    }
  }
}
