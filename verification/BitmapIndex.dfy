/** The bitmap index: an ordered map from keys to buckets of rows. */
module BitmapIndex {
  import opened Common
  import opened OrderedMap
  import opened Buckets

  class Bitmap {
    var buckets: BucketMap

    constructor ()
      ensures buckets == map[]
    {
      buckets := map[];
    }

    method Insert(key: int, rid: RID)
      modifies this
      ensures buckets == Added(old(buckets), key, rid) && Appends(old(buckets), buckets, key, rid)
    {
      var rows := if key in buckets then buckets[key] else [];
      buckets := buckets[key := rows + [rid]];
    }

    method Erase(key: int, rid: RID) returns (erased: bool)
      modifies this
      ensures buckets == Removed(old(buckets), key, rid) && Drops(old(buckets), buckets, key, rid)
      ensures erased <==> rid in RowsAt(old(buckets), key)
    {
      RemovedDrops(buckets, key, rid);
      if key !in buckets { return false; }
      var rows := buckets[key];
      var at := Position(rows, rid);
      if at == |rows| { return false; }
      rows := rows[..at] + rows[at + 1..];
      if rows == [] {
        buckets := buckets - {key};
      } else {
        buckets := buckets[key := rows];
      }
      erased := true;
    }

    method Find(key: int) returns (out: Bucket)
      ensures out == RowsAt(buckets, key)
    {
      out := if key in buckets then buckets[key] else [];
    }

    /** The smallest key not below `from`, where the ordered map's iterator stands. */
    method LowerBound(from: int) returns (found: bool, key: int)
      ensures found ==> key in buckets && from <= key && forall k :: k in buckets && from <= k ==> key <= k
      ensures !found ==> forall k :: k in buckets ==> k < from
    {
      found, key := false, 0;
      var todo := buckets.Keys;
      while todo != {}
        invariant todo <= buckets.Keys
        invariant found ==> key in buckets && from <= key
        invariant forall k :: k in buckets && k !in todo && from <= k ==> found && key <= k
        decreases |todo|
      {
        assert (exists k :: k in todo) || todo == {};
        var k :| k in todo;
        if from <= k && (!found || k < key) { found, key := true, k; }
        todo := todo - {k};
      }
    }

    method Range(lo: int, hi: int) returns (out: Bucket)
      ensures out == RowsBetween(buckets, lo, hi)
    {
      hide Joined, InRange, Listing, Lists, Sorted;
      out := [];
      ghost var es := Listing(buckets);
      ListingLists(buckets);
      ghost var i := SkipTo(es, lo);
      InRangeNone(es[..i], lo, hi);
      JoinedNone();
      var found, key := LowerBound(lo);
      Next(es, i, lo, found, key);
      while found && key <= hi
        invariant i <= |es| && (found <==> i < |es|) && (found ==> key == es[i].key && lo <= key)
        invariant out == Joined(InRange(es[..i], lo, hi))
        decreases |es| - i
      {
        Here(es, i);
        InRangeStep(es, i, lo, hi);
        JoinedStep(InRange(es[..i], lo, hi), es[i].val);
        out := out + buckets[key];
        i := i + 1;
        var from := key + 1;
        found, key := LowerBound(from);
        Next(es, i, from, found, key);
      }
      SortedAscends(es);
      if found { InRangeStop(es, i, lo, hi); } else { assert es[..i] == es; }
    }

    method AppendPairs(acc: seq<(int, RID)>, key: int, rows: Bucket) returns (out: seq<(int, RID)>)
      ensures out == acc + PairsOf(key, rows)
    {
      out := acc;
      var j := 0;
      while j < |rows|
        invariant j <= |rows| && out == acc + PairsOf(key, rows[..j])
      {
        out := out + [(key, rows[j])];
        assert PairsOf(key, rows[..j + 1]) == PairsOf(key, rows[..j]) + [(key, rows[j])];
        j := j + 1;
      }
      assert rows[..j] == rows;
    }

    method ScanAll() returns (out: seq<(int, RID)>)
      ensures out == AllPairs(buckets)
    {
      hide Listing, Lists, Sorted, PairsIn, PairsOf;
      out := [];
      ghost var es, i := Listing(buckets), 0;
      ListingLists(buckets);
      var smallest := SmallestKey();
      FirstListed(es, smallest);
      var found, key := LowerBound(smallest);
      Next(es, i, smallest, found, key);
      while found
        invariant i <= |es| && (found <==> i < |es|) && (found ==> key == es[i].key)
        invariant out == PairsIn(es[..i])
        decreases |es| - i
      {
        Here(es, i);
        PairsSnoc(es, i);
        out := AppendPairs(out, key, buckets[key]);
        i := i + 1;
        var from := key + 1;
        found, key := LowerBound(from);
        Next(es, i, from, found, key);
      }
      assert es[..i] == es;
    }

    // A key no bucket is below.
    method SmallestKey() returns (key: int)
      ensures forall k :: k in buckets ==> key <= k
    {
      key := 0;
      var todo := buckets.Keys;
      while todo != {}
        invariant todo <= buckets.Keys && forall k :: k in buckets && k !in todo ==> key <= k
        decreases |todo|
      {
        assert (exists k :: k in todo) || todo == {};
        var k :| k in todo;
        if k < key { key := k; }
        todo := todo - {k};
      }
    }

    /** The iterator after `from` stands at the next listed entry. */
    lemma Next(es: seq<Entry<Bucket>>, i: nat, from: int, found: bool, key: int)
      requires Sorted(es) && Lists(es, buckets) && i <= |es|
      requires (forall j :: 0 <= j < i ==> es[j].key < from) && (i < |es| ==> from <= es[i].key)
      requires found ==> key in buckets && from <= key && forall k :: k in buckets && from <= k ==> key <= k
      requires !found ==> forall k :: k in buckets ==> k < from
      ensures found <==> i < |es|
      ensures found ==> key == es[i].key
    {
      assert forall j :: 0 <= j < |es| ==> es[j].key in buckets;
      if found {
        var j :| 0 <= j < |es| && es[j].key == key;
        assert i <= j;
      }
    }

    lemma FirstListed(es: seq<Entry<Bucket>>, smallest: int)
      requires Lists(es, buckets) && forall k :: k in buckets ==> smallest <= k
      ensures PairsIn(es[..0]) == [] && (es != [] ==> smallest <= es[0].key)
    {
    }

    /** Entry `i` of the listing is a bucket, and lies strictly between its neighbours. */
    lemma Here(es: seq<Entry<Bucket>>, i: nat)
      requires Sorted(es) && Lists(es, buckets) && i < |es|
      ensures es[i].key in buckets && buckets[es[i].key] == es[i].val
      ensures forall j :: 0 <= j < i + 1 ==> es[j].key < es[i].key + 1
      ensures i + 1 < |es| ==> es[i].key + 1 <= es[i + 1].key
    {
    }
  }

  /** How many sorted entries lie below a key. */
  lemma {:induction false} SkipTo(es: seq<Entry<Bucket>>, from: int) returns (i: nat)
    requires Sorted(es)
    ensures i <= |es| && (forall j :: 0 <= j < i ==> es[j].key < from) && (i < |es| ==> from <= es[i].key)
    decreases |es|
  {
    if es == [] || es[|es| - 1].key < from { return |es|; }
    var n := |es| - 1;
    i := SkipTo(es[..n], from);
  }
}
