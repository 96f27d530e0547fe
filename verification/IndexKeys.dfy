/** Keys of indexes: lists of numbers and texts, compared column by column. */
module IndexKeys {
  import opened Common

  /** One column value of a key; numbers exclude NaN. */
  datatype KeyVal = Num(num: real) | Str(str: string)

  /** Numbers come before texts. */
  predicate ValLess(a: KeyVal, b: KeyVal) {
    if a.Str? != b.Str? then !a.Str?
    else if a.Str? then TextLess(a.str, b.str)
    else a.num < b.num
  }

  type Key = seq<KeyVal>

  /** Keys i, i + 1, ... of two keys decide: the first difference, or else the shorter key comes first. */
  predicate LessFrom(a: Key, b: Key, i: nat)
    requires i <= |a| && i <= |b|
    decreases |a| - i
  {
    if i == |a| || i == |b| then |a| < |b|
    else if ValLess(a[i], b[i]) then true
    else if ValLess(b[i], a[i]) then false
    else LessFrom(a, b, i + 1)
  }

  predicate Less(a: Key, b: Key) { LessFrom(a, b, 0) }

  /** Numbers by value, texts by their first difference, numbers before texts. */
  ghost predicate ValBefore(a: KeyVal, b: KeyVal) {
    match (a, b)
    case (Num(x), Num(y)) => x < y
    case (Str(s), Str(t)) => TextBefore(s, t)
    case (Num(_), Str(_)) => true
    case (Str(_), Num(_)) => false
  }

  /** Key `a` is a proper beginning of `b`, or has the smaller value in the first column in which they differ. */
  ghost predicate Before(a: Key, b: Key) {
    || (|a| < |b| && a == b[..|a|])
    || exists k :: 0 <= k < |a| && k < |b| && a[..k] == b[..k] && ValBefore(a[k], b[k])
  }

  lemma ValLessIs(a: KeyVal, b: KeyVal)
    ensures ValLess(a, b) <==> ValBefore(a, b)
    ensures ValBefore(a, b) || ValBefore(b, a) || a == b
    ensures !ValBefore(a, a)
  {
    hide TextLess, TextBefore;
    if a.Str? && b.Str? {
      TextLessIs(a.str, b.str);
      TextLessIs(b.str, a.str);
      TextOrder(a.str, b.str, a.str);
    }
    if a.Str? {
      TextLessIs(a.str, a.str);
      TextOrder(a.str, a.str, a.str);
    }
  }

  lemma {:induction false} LessFromIs(a: Key, b: Key, i: nat)
    requires i <= |a| && i <= |b| && a[..i] == b[..i]
    ensures LessFrom(a, b, i) <==>
      (|a| < |b| && a == b[..|a|])
      || exists k :: i <= k < |a| && k < |b| && a[..k] == b[..k] && ValBefore(a[k], b[k])
    decreases |a| - i
  {
    hide ValLess, ValBefore;
    if i < |a| && i < |b| {
      ValLessIs(a[i], b[i]);
      ValLessIs(b[i], a[i]);
      ValLessIs(a[i], a[i]);
      if a[i] == b[i] {
        assert a[..i + 1] == a[..i] + [a[i]] && b[..i + 1] == b[..i] + [b[i]];
        LessFromIs(a, b, i + 1);
      } else {
        forall k | i < k && k <= |a| && k <= |b| ensures a[..k] != b[..k] {
          assert a[..k][i] != b[..k][i];
        }
      }
    } else {
      assert i == |a| ==> a[..i] == a;
    }
  }

  /** The first difference decides, or else the length. */
  lemma LessIs(a: Key, b: Key)
    ensures Less(a, b) <==> Before(a, b)
  {
    hide ValBefore;
    LessFromIs(a, b, 0);
  }

  /** The comparison loop. */
  method Compare(a: Key, b: Key) returns (less: bool)
    ensures less == Less(a, b) && (less <==> Before(a, b))
  {
    LessIs(a, b);
    var n := if |a| < |b| then |a| else |b|;
    for i := 0 to n
      invariant Less(a, b) == LessFrom(a, b, i)
    {
      if ValLess(a[i], b[i]) { return true; }
      if ValLess(b[i], a[i]) { return false; }
    }
    less := |a| < |b|;
  }

  // ---- a strict total order ----

  lemma ValOrder(a: KeyVal, b: KeyVal, c: KeyVal)
    ensures !(ValLess(a, b) && ValLess(b, a))
    ensures a == b || ValLess(a, b) || ValLess(b, a)
    ensures ValLess(a, b) && ValLess(b, c) ==> ValLess(a, c)
  {
    if a.Str? && b.Str? { TextOrder(a.str, b.str, if c.Str? then c.str else []); }
  }

  lemma {:induction false} OrderFrom(a: Key, b: Key, c: Key, i: nat)
    requires i <= |a| && i <= |b| && i <= |c|
    ensures !(LessFrom(a, b, i) && LessFrom(b, a, i))
    ensures a[i..] == b[i..] || LessFrom(a, b, i) || LessFrom(b, a, i)
    ensures LessFrom(a, b, i) && LessFrom(b, c, i) ==> LessFrom(a, c, i)
    decreases |a| - i
  {
    if i < |a| && i < |b| {
      ValOrder(a[i], b[i], if i < |c| then c[i] else a[i]);
      ValOrder(b[i], a[i], b[i]);
      if i < |c| {
        ValOrder(b[i], c[i], a[i]);
        ValOrder(c[i], a[i], b[i]);
        OrderFrom(a, b, c, i + 1);
      } else {
        OrderFrom(a, b, a + b, i + 1);
      }
      assert a[i] == b[i] && a[i + 1..] == b[i + 1..] ==>
        a[i..] == [a[i]] + a[i + 1..] == [b[i]] + b[i + 1..] == b[i..];
    }
  }

  /** Any two keys are equal or ordered one way, and the order is transitive: what the trees need of their keys. */
  lemma StrictTotalOrder(a: Key, b: Key, c: Key)
    ensures !(Less(a, b) && Less(b, a))
    ensures a == b || Less(a, b) || Less(b, a)
    ensures Less(a, b) && Less(b, c) ==> Less(a, c)
  {
    OrderFrom(a, b, c, 0);
    assert a[0..] == a && b[0..] == b;
  }
}
