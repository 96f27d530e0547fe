/** Index pages of the disk B+ tree: the byte layout and the slot arrays it provides. */
module DiskPage {
  import opened Common
  import opened OrderedMap

  // ---- byte layout ----

  const OFF_KEYS: nat := 16
  const RID_BYTES: nat := 12
  const CHILD_BYTES: nat := 8

  function KeyBytes(keyCols: nat): nat { 8 * keyCols }

  // The cast to uint16_t is written out; `SlotCounts` shows that it loses nothing.
  function LeafSlots(keyCols: nat): nat {
    ((PAGE_SIZE - OFF_KEYS) / (KeyBytes(keyCols) + RID_BYTES)) % 0x1_0000
  }

  function InternalSlots(keyCols: nat): nat {
    ((PAGE_SIZE - OFF_KEYS - CHILD_BYTES) / (KeyBytes(keyCols) + CHILD_BYTES)) % 0x1_0000
  }

  datatype Slot = KeySlot(i: nat) | RidSlot(i: nat) | ChildSlot(i: nat)

  function Slots(leaf: bool, keyCols: nat): nat {
    if leaf then LeafSlots(keyCols) else InternalSlots(keyCols)
  }

  ghost predicate SlotOf(s: Slot, leaf: bool, slots: nat) {
    match s
    case KeySlot(i) => i < slots
    case RidSlot(i) => leaf && i < slots
    case ChildSlot(i) => !leaf && i <= slots
  }

  // Keys follow the header, the second region follows room for `slots` keys.
  function Offset(s: Slot, slots: nat, keyBytes: nat): nat {
    match s
    case KeySlot(i) => OFF_KEYS + i * keyBytes
    case RidSlot(i) => OFF_KEYS + slots * keyBytes + i * RID_BYTES
    case ChildSlot(i) => OFF_KEYS + slots * keyBytes + i * CHILD_BYTES
  }

  function Width(s: Slot, keyBytes: nat): nat {
    match s
    case KeySlot(_) => keyBytes
    case RidSlot(_) => RID_BYTES
    case ChildSlot(_) => CHILD_BYTES
  }

  lemma DivMono(a: nat, b: nat, c: nat)
    requires 0 < c <= b
    ensures a / b <= a / c
  {
    DivBound(a, b);
    MulMono(a / b, c, a / b, b);
    var d := a / b - a / c;
    assert a == (a / c) * c + a % c;
    assert (a / b) * c == (a / c) * c + d * c;
    if d >= 1 {
      MulMono(1, c, d, c);
      assert false;
    }
  }

  lemma MulMono(a: nat, b: nat, c: nat, d: nat)
    requires a <= c && b <= d
    ensures a * b <= c * d
  {
    assert c * d - a * b == (c - a) * d + a * (d - b);
  }

  /** The slot counts fit in 16 bits and both regions of a page fit behind the header. */
  lemma SlotCounts(keyCols: nat)
    ensures LeafSlots(keyCols) == (PAGE_SIZE - OFF_KEYS) / (KeyBytes(keyCols) + RID_BYTES)
    ensures InternalSlots(keyCols) == (PAGE_SIZE - OFF_KEYS - CHILD_BYTES) / (KeyBytes(keyCols) + CHILD_BYTES)
    ensures OFF_KEYS + LeafSlots(keyCols) * (KeyBytes(keyCols) + RID_BYTES) <= PAGE_SIZE
    ensures OFF_KEYS + InternalSlots(keyCols) * (KeyBytes(keyCols) + CHILD_BYTES) + CHILD_BYTES <= PAGE_SIZE
  {
    hide KeyBytes;
    Quotient(PAGE_SIZE - OFF_KEYS, KeyBytes(keyCols), RID_BYTES);
    Quotient(PAGE_SIZE - OFF_KEYS - CHILD_BYTES, KeyBytes(keyCols), CHILD_BYTES);
  }

  lemma Quotient(avail: nat, k: nat, w: nat)
    requires w > 0 && avail / w < 0x1_0000
    ensures avail / (k + w) < 0x1_0000 && (avail / (k + w)) * (k + w) <= avail
  {
    DivMono(avail, k + w, w);
    DivBound(avail, k + w);
  }

  lemma MulStep(i: nat, j: nat, w: nat)
    requires i < j
    ensures i * w + w <= j * w
  {
    MulMono(i + 1, w, j, w);
    assert (i + 1) * w == i * w + w;
  }

  /** Every slot lies inside the page behind the header, and no two slots of a page share a byte. */
  lemma SlotsDisjoint(s: Slot, t: Slot, leaf: bool, keyCols: nat)
    requires SlotOf(s, leaf, Slots(leaf, keyCols)) && SlotOf(t, leaf, Slots(leaf, keyCols)) && s != t
    ensures var n, k := Slots(leaf, keyCols), KeyBytes(keyCols);
      && OFF_KEYS <= Offset(s, n, k) && Offset(s, n, k) + Width(s, k) <= PAGE_SIZE
      && (Offset(s, n, k) + Width(s, k) <= Offset(t, n, k) || Offset(t, n, k) + Width(t, k) <= Offset(s, n, k))
  {
    SlotCounts(keyCols);
    var n, k := Slots(leaf, keyCols), KeyBytes(keyCols);
    InPage(s, leaf, n, k);
    InPage(t, leaf, n, k);
    Apart(s, t, leaf, n, k);
  }

  lemma Apart(s: Slot, t: Slot, leaf: bool, n: nat, k: nat)
    requires SlotOf(s, leaf, n) && SlotOf(t, leaf, n) && s != t
    ensures Offset(s, n, k) + Width(s, k) <= Offset(t, n, k) || Offset(t, n, k) + Width(t, k) <= Offset(s, n, k)
  {
    if s.KeySlot? { MulStep(s.i, n, k); }
    if t.KeySlot? { MulStep(t.i, n, k); }
    if s.KeySlot? && t.KeySlot? {
      if s.i < t.i { MulStep(s.i, t.i, k); } else { MulStep(t.i, s.i, k); }
    }
  }

  lemma InPage(s: Slot, leaf: bool, n: nat, k: nat)
    requires SlotOf(s, leaf, n)
    requires OFF_KEYS + n * (k + if leaf then RID_BYTES else CHILD_BYTES) + (if leaf then 0 else CHILD_BYTES)
             <= PAGE_SIZE
    ensures OFF_KEYS <= Offset(s, n, k) && Offset(s, n, k) + Width(s, k) <= PAGE_SIZE
  {
    var w := if leaf then RID_BYTES else CHILD_BYTES;
    Distribute(n, k, w);
    match s
    case KeySlot(i) => MulStep(i, n, k);
    case RidSlot(i) => RidInPage(i, n, n * k);
    case ChildSlot(i) => ChildInPage(i, n, n * k);
  }

  lemma RidInPage(i: nat, n: nat, keys: nat)
    requires i < n && OFF_KEYS + keys + n * RID_BYTES <= PAGE_SIZE
    ensures OFF_KEYS + keys + i * RID_BYTES + RID_BYTES <= PAGE_SIZE
  {
  }

  lemma ChildInPage(i: nat, n: nat, keys: nat)
    requires i <= n && OFF_KEYS + keys + n * CHILD_BYTES + CHILD_BYTES <= PAGE_SIZE
    ensures OFF_KEYS + keys + i * CHILD_BYTES + CHILD_BYTES <= PAGE_SIZE
  {
  }

  lemma Distribute(n: nat, k: nat, w: nat)
    ensures n * (k + w) == n * k + n * w
  {
  }

  // ---- slot arrays ----

  /** A page as its header fields and slot arrays; slots at or beyond `numKeys` hold stale data. */
  datatype Page = Page(isLeaf: bool, numKeys: nat, nextLeaf: int,
                       keys: seq<int>, rids: seq<RID>, kids: seq<int>)

  // A zero-filled page as AllocNode leaves it.
  function Blank(isLeaf: bool, slots: nat): Page {
    Page(isLeaf, 0, -1, seq(slots, _ => 0),
         if isLeaf then seq(slots, _ => RID(0, 0)) else [],
         if isLeaf then [] else seq(slots + 1, _ => 0))
  }

  /** The live keys of a page. */
  ghost function Live(p: Page): seq<int>
    requires p.numKeys <= |p.keys|
  {
    p.keys[..p.numKeys]
  }

  ghost predicate HoldsLeaf(p: Page, es: seq<Entry<RID>>, nxt: int, leafSlots: nat) {
    && p.isLeaf && p.nextLeaf == nxt
    && |p.keys| == leafSlots && |p.rids| == leafSlots
    && p.numKeys == |es| <= leafSlots
    && forall i :: 0 <= i < |es| ==> p.keys[i] == es[i].key && p.rids[i] == es[i].val
  }

  ghost predicate HoldsInner(p: Page, keys: seq<int>, innerSlots: nat) {
    && !p.isLeaf
    && |p.keys| == innerSlots && |p.kids| == innerSlots + 1
    && p.numKeys == |keys| <= innerSlots
    && forall i :: 0 <= i < |keys| ==> p.keys[i] == keys[i]
  }

  /** The scan `while (i < n && !(key < KeyAt(i))) i++` that every descent and insertion starts with. */
  method UpperSlot(p: Page, key: int) returns (idx: nat)
    requires p.numKeys <= |p.keys|
    ensures idx <= p.numKeys
    ensures forall i :: 0 <= i < idx ==> p.keys[i] <= key
    ensures idx < p.numKeys ==> key < p.keys[idx]
  {
    idx := 0;
    while idx < p.numKeys && !(key < p.keys[idx])
      invariant idx <= p.numKeys
      invariant forall i :: 0 <= i < idx ==> p.keys[i] <= key
    {
      idx := idx + 1;
    }
  }

  /** Make room at `pos` in a leaf by shifting the tail one slot up, then store the entry. */
  method LeafInsertAt(p: Page, pos: nat, key: int, rid: RID, ghost es: seq<Entry<RID>>, ghost slots: nat)
    returns (q: Page)
    requires HoldsLeaf(p, es, p.nextLeaf, slots) && pos <= |es| < slots
    ensures HoldsLeaf(q, es[..pos] + [Entry(key, rid)] + es[pos..], p.nextLeaf, slots)
  {
    q := p;
    var i := p.numKeys;
    while i > pos
      invariant pos <= i <= |es|
      invariant q == p.(keys := q.keys, rids := q.rids) && |q.keys| == slots && |q.rids| == slots
      invariant forall j :: 0 <= j < |es| && j <= i ==> q.keys[j] == es[j].key && q.rids[j] == es[j].val
      invariant forall j :: i < j <= |es| ==> q.keys[j] == es[j - 1].key && q.rids[j] == es[j - 1].val
    {
      q := q.(keys := q.keys[i := q.keys[i - 1]], rids := q.rids[i := q.rids[i - 1]]);
      i := i - 1;
    }
    q := q.(keys := q.keys[pos := key], rids := q.rids[pos := rid], numKeys := p.numKeys + 1);
  }

  /** Overwrite entry `i` of a leaf by shifting the tail one slot down. */
  method LeafRemoveAt(p: Page, i: nat, ghost es: seq<Entry<RID>>, ghost slots: nat) returns (q: Page)
    requires HoldsLeaf(p, es, p.nextLeaf, slots) && i < |es|
    ensures HoldsLeaf(q, es[..i] + es[i + 1..], p.nextLeaf, slots)
  {
    q := p;
    var t := i;
    while t + 1 < p.numKeys
      invariant i <= t < |es|
      invariant q == p.(keys := q.keys, rids := q.rids) && |q.keys| == slots && |q.rids| == slots
      invariant forall j :: 0 <= j < i ==> q.keys[j] == es[j].key && q.rids[j] == es[j].val
      invariant forall j :: i <= j < t ==> q.keys[j] == es[j + 1].key && q.rids[j] == es[j + 1].val
      invariant forall j :: t <= j < |es| ==> q.keys[j] == es[j].key && q.rids[j] == es[j].val
    {
      q := q.(keys := q.keys[t := q.keys[t + 1]], rids := q.rids[t := q.rids[t + 1]]);
      t := t + 1;
    }
    q := q.(numKeys := p.numKeys - 1);
  }

  /** Append the entries of `src` from slot `from` on to the end of leaf `dst`. */
  method LeafAppend(dst: Page, src: Page, from: nat, ghost des: seq<Entry<RID>>, ghost ses: seq<Entry<RID>>,
                    ghost slots: nat)
    returns (q: Page)
    requires HoldsLeaf(dst, des, dst.nextLeaf, slots) && HoldsLeaf(src, ses, src.nextLeaf, slots)
    requires from <= |ses| && |des| + |ses| - from <= slots
    ensures HoldsLeaf(q, des + ses[from..], dst.nextLeaf, slots)
  {
    q := dst;
    var i := from;
    while i < src.numKeys
      invariant from <= i <= |ses|
      invariant HoldsLeaf(q, des + ses[from..i], dst.nextLeaf, slots)
    {
      var n := q.numKeys;
      q := q.(keys := q.keys[n := src.keys[i]], rids := q.rids[n := src.rids[i]], numKeys := n + 1);
      i := i + 1;
    }
    assert ses[from..i] == ses[from..];
  }

  /** Insert separator `key` at `ci` and child `right` at `ci + 1` of an internal page. */
  method InnerInsertAt(p: Page, ci: nat, key: int, right: int, ghost keys: seq<int>, ghost slots: nat)
    returns (q: Page)
    requires HoldsInner(p, keys, slots) && ci <= |keys| < slots
    ensures HoldsInner(q, keys[..ci] + [key] + keys[ci..], slots)
    ensures q.kids[..|keys| + 2] == p.kids[..ci + 1] + [right] + p.kids[ci + 1..|keys| + 1]
  {
    q := ShiftKeys(p, ci, keys, slots);
    q := ShiftKids(q, ci, keys, slots);
    q := q.(keys := q.keys[ci := key], kids := q.kids[ci + 1 := right], numKeys := p.numKeys + 1);
  }

  method ShiftKeys(p: Page, ci: nat, ghost keys: seq<int>, ghost slots: nat) returns (q: Page)
    requires HoldsInner(p, keys, slots) && ci <= |keys| < slots
    ensures q == p.(keys := q.keys) && |q.keys| == slots
    ensures forall j :: 0 <= j <= ci && j < |keys| ==> q.keys[j] == keys[j]
    ensures forall j :: ci < j <= |keys| ==> q.keys[j] == keys[j - 1]
  {
    q := p;
    var i := p.numKeys;
    while i > ci
      invariant ci <= i <= |keys|
      invariant q == p.(keys := q.keys) && |q.keys| == slots
      invariant forall j :: 0 <= j < |keys| && j <= i ==> q.keys[j] == keys[j]
      invariant forall j :: i < j <= |keys| ==> q.keys[j] == keys[j - 1]
    {
      q := q.(keys := q.keys[i := q.keys[i - 1]]);
      i := i - 1;
    }
  }

  method ShiftKids(p: Page, ci: nat, ghost keys: seq<int>, ghost slots: nat) returns (q: Page)
    requires p.numKeys == |keys| && |p.kids| == slots + 1 && ci <= |keys| < slots
    ensures q == p.(kids := q.kids) && |q.kids| == slots + 1
    ensures forall j :: 0 <= j <= ci + 1 && j <= |keys| ==> q.kids[j] == p.kids[j]
    ensures forall j :: ci + 1 < j <= |keys| + 1 ==> q.kids[j] == p.kids[j - 1]
  {
    q := p;
    var i := p.numKeys + 1;
    while i > ci + 1
      invariant ci + 1 <= i <= |keys| + 1
      invariant q == p.(kids := q.kids) && |q.kids| == slots + 1
      invariant forall j :: 0 <= j <= |keys| && j <= i ==> q.kids[j] == p.kids[j]
      invariant forall j :: i < j <= |keys| + 1 ==> q.kids[j] == p.kids[j - 1]
    {
      q := q.(kids := q.kids[i := q.kids[i - 1]]);
      i := i - 1;
    }
  }

  /** Remove separator `ci` and child `ci + 1` of an internal page. */
  method InnerRemoveAt(p: Page, ci: nat, ghost keys: seq<int>, ghost slots: nat) returns (q: Page)
    requires HoldsInner(p, keys, slots) && ci < |keys|
    ensures HoldsInner(q, keys[..ci] + keys[ci + 1..], slots)
    ensures q.kids[..|keys|] == p.kids[..ci + 1] + p.kids[ci + 2..|keys| + 1]
  {
    q := p;
    var t := ci;
    while t + 1 < p.numKeys
      invariant ci <= t < |keys|
      invariant q == p.(keys := q.keys) && |q.keys| == slots
      invariant forall j :: 0 <= j < ci ==> q.keys[j] == keys[j]
      invariant forall j :: ci <= j < t ==> q.keys[j] == keys[j + 1]
      invariant forall j :: t <= j < |keys| ==> q.keys[j] == keys[j]
    {
      q := q.(keys := q.keys[t := q.keys[t + 1]]);
      t := t + 1;
    }
    ghost var ks := q.keys;
    t := ci + 1;
    while t < p.numKeys
      invariant ci + 1 <= t <= |keys|
      invariant q == p.(keys := ks, kids := q.kids) && |q.kids| == slots + 1
      invariant forall j :: 0 <= j <= ci ==> q.kids[j] == p.kids[j]
      invariant forall j :: ci < j < t ==> q.kids[j] == p.kids[j + 1]
      invariant forall j :: t <= j <= |keys| ==> q.kids[j] == p.kids[j]
    {
      q := q.(kids := q.kids[t := q.kids[t + 1]]);
      t := t + 1;
    }
    q := q.(numKeys := p.numKeys - 1);
  }

  /** Copy the separators and children right of separator `mid` into the blank page `dst`. */
  method InnerCopyTail(dst: Page, src: Page, mid: nat, ghost keys: seq<int>, ghost slots: nat) returns (q: Page)
    requires HoldsInner(dst, [], slots) && HoldsInner(src, keys, slots) && mid < |keys|
    ensures HoldsInner(q, keys[mid + 1..], slots)
    ensures q.kids[..|keys| - mid] == src.kids[mid + 1..|keys| + 1]
  {
    q := dst;
    var i, j := mid + 1, 0;
    while i < src.numKeys
      invariant mid + 1 <= i <= |keys| && j == i - mid - 1
      invariant q == dst.(keys := q.keys) && |q.keys| == slots
      invariant forall t :: 0 <= t < j ==> q.keys[t] == keys[mid + 1 + t]
    {
      q := q.(keys := q.keys[j := src.keys[i]]);
      i, j := i + 1, j + 1;
    }
    ghost var ks := q.keys;
    var ci, cj := mid + 1, 0;
    while ci <= src.numKeys
      invariant mid + 1 <= ci <= |keys| + 1 && cj == ci - mid - 1
      invariant q == dst.(keys := ks, kids := q.kids) && |q.kids| == slots + 1
      invariant forall t :: 0 <= t < cj ==> q.kids[t] == src.kids[mid + 1 + t]
    {
      q := q.(kids := q.kids[cj := src.kids[ci]]);
      ci, cj := ci + 1, cj + 1;
    }
    q := q.(numKeys := j);
  }

  /** The scan `while (ci <= n && ChildAt(ci) != child) ci++`. */
  method ChildSlotOf(p: Page, child: int) returns (ci: nat)
    requires p.numKeys < |p.kids|
    ensures ci <= p.numKeys + 1
    ensures forall j :: 0 <= j < ci ==> p.kids[j] != child
    ensures ci <= p.numKeys ==> p.kids[ci] == child
  {
    ci := 0;
    while ci <= p.numKeys && p.kids[ci] != child
      invariant ci <= p.numKeys + 1
      invariant forall j :: 0 <= j < ci ==> p.kids[j] != child
    {
      ci := ci + 1;
    }
  }
}
