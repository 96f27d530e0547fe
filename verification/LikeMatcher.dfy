/** SQL LIKE: the two-cursor matcher with one remembered '%', against what a pattern denotes. */
module LikeMatcher {

  function Lower(c: char): char {
    if 'A' <= c <= 'Z' then (c as int + 32) as char else c
  }

  predicate CharEq(a: char, b: char, ci: bool) {
    if ci then Lower(a) == Lower(b) else a == b
  }

  /** One pattern character against one text character, '%' taken literally. */
  predicate One(p: char, t: char, ci: bool) {
    p == '_' || CharEq(p, t, ci)
  }

  // ---- what a pattern means ----

  /** '%' stands for any run of characters, '_' for any one, anything else for itself. */
  ghost predicate Denotes(p: string, t: string, ci: bool)
    decreases |p|
  {
    if p == [] then t == []
    else if p[0] == '%' then exists k :: 0 <= k <= |t| && Denotes(p[1..], t[k..], ci)
    else t != [] && One(p[0], t[0], ci) && Denotes(p[1..], t[1..], ci)
  }

  /** The characters ILIKE takes for the same: equal ones, and a capital letter and its small letter. */
  predicate SameLetter(a: char, b: char) {
    a == b || ('A' <= a <= 'Z' && b as int == a as int + 32) || ('A' <= b <= 'Z' && a as int == b as int + 32)
  }

  /** What the parts of a pattern stand for: nothing, an ordinary character, '_' and '%'. LIKE takes no two characters
      for the same. */
  lemma PatternMeans(c: char, rest: string, t: string, ci: bool)
    ensures Denotes([], t, ci) <==> t == []
    ensures c != '%' && c != '_' ==>
      (Denotes([c] + rest, t, ci) <==>
         t != [] && (if ci then SameLetter(c, t[0]) else c == t[0]) && Denotes(rest, t[1..], ci))
    ensures Denotes(['_'] + rest, t, ci) <==> t != [] && Denotes(rest, t[1..], ci)
    ensures Denotes(['%'] + rest, t, ci) <==> exists k :: 0 <= k <= |t| && Denotes(rest, t[k..], ci)
  {
    assert ([c] + rest)[1..] == rest && (['_'] + rest)[1..] == rest && (['%'] + rest)[1..] == rest;
    if t != [] { LettersFold(c, t[0]); }
  }

  lemma LettersFold(a: char, b: char)
    ensures Lower(a) == Lower(b) <==> SameLetter(a, b)
  {
  }

  // ---- the matcher ----

  /** How the two cursors can stand; `star` is -1 before the first '%'. */
  predicate Cursors(t: string, p: string, ti: int, pi: int, star: int, mark: int) {
    0 <= mark <= ti <= |t| && -1 <= star < pi <= |p|
  }

  predicate AllStars(p: string) {
    p == [] || (p[0] == '%' && AllStars(p[1..]))
  }

  predicate Go(t: string, p: string, ci: bool, ti: int, pi: int, star: int, mark: int)
    requires Cursors(t, p, ti, pi, star, mark)
    decreases |t| - mark, |p| - pi
  {
    if ti == |t| then AllStars(p[pi..])
    else if pi < |p| && One(p[pi], t[ti], ci) then Go(t, p, ci, ti + 1, pi + 1, star, mark)
    else if pi < |p| && p[pi] == '%' then Go(t, p, ci, ti, pi + 1, pi, ti)
    else if star != -1 then Go(t, p, ci, mark + 1, star + 1, star, mark + 1)
    else false
  }

  predicate Matches(t: string, p: string, ci: bool) {
    Go(t, p, ci, 0, 0, -1, 0)
  }

  method Match(text: string, pattern: string, ci: bool) returns (matched: bool)
    ensures matched == Matches(text, pattern, ci)
  {
    var ti, pi, star, mark := 0, 0, -1, 0;
    while ti < |text|
      invariant Cursors(text, pattern, ti, pi, star, mark)
      invariant Matches(text, pattern, ci) == Go(text, pattern, ci, ti, pi, star, mark)
      decreases |text| - mark, |pattern| - pi
    {
      if pi < |pattern| && (pattern[pi] == '_' || CharEq(pattern[pi], text[ti], ci)) {
        ti, pi := ti + 1, pi + 1;
      } else if pi < |pattern| && pattern[pi] == '%' {
        star, mark := pi, ti;
        pi := pi + 1;
      } else if star != -1 {
        pi := star + 1;
        mark := mark + 1;
        ti := mark;
      } else {
        return false;
      }
    }
    while pi < |pattern| && pattern[pi] == '%'
      invariant 0 <= pi <= |pattern|
      invariant AllStars(pattern[pi..]) == Matches(text, pattern, ci)
    {
      assert pattern[pi..][1..] == pattern[pi + 1..];
      pi := pi + 1;
    }
    return pi == |pattern|;
  }

  // ---- facts about patterns ----

  lemma {:induction false} StarsDenoteEmpty(p: string, ci: bool)
    ensures Denotes(p, [], ci) <==> AllStars(p)
    decreases |p|
  {
    if p != [] {
      StarsDenoteEmpty(p[1..], ci);
      if p[0] == '%' {
        var t: string := [];
        assert t[0..] == t;
      }
    }
  }

  /** `seg`, '%' read literally, lines up with `t` character by character. */
  predicate Aligned(seg: string, t: string, ci: bool) {
    |seg| == |t| && forall i :: 0 <= i < |seg| ==> One(seg[i], t[i], ci)
  }

  /** A segment without '%' matches exactly the texts that start with an aligned piece. */
  lemma {:induction false} SegmentFirst(seg: string, rest: string, t: string, ci: bool)
    requires '%' !in seg
    ensures Denotes(seg + rest, t, ci) <==>
      |seg| <= |t| && Aligned(seg, t[..|seg|], ci) && Denotes(rest, t[|seg|..], ci)
    decreases |seg|
  {
    if seg == [] {
      assert seg + rest == rest && t[0..] == t;
    } else {
      var p := seg + rest;
      assert p[0] == seg[0] && p[1..] == seg[1..] + rest;
      if t != [] {
        SegmentFirst(seg[1..], rest, t[1..], ci);
        if |seg| <= |t| {
          assert t[1..][..|seg| - 1] == t[..|seg|][1..] && t[1..][|seg| - 1..] == t[|seg|..];
          assert Aligned(seg, t[..|seg|], ci) <==> One(seg[0], t[0], ci) && Aligned(seg[1..], t[..|seg|][1..], ci) by {
            if Aligned(seg[1..], t[..|seg|][1..], ci) && One(seg[0], t[0], ci) {
              forall i | 0 <= i < |seg| ensures One(seg[i], t[..|seg|][i], ci) {
                if i > 0 { assert seg[1..][i - 1] == seg[i]; }
              }
            }
          }
        }
      }
    }
  }

  /** Some suffix of `t` from `mark` on matches what follows the remembered '%'. */
  ghost predicate FromMark(t: string, tail: string, mark: int, ci: bool)
    requires 0 <= mark
  {
    exists k :: mark <= k <= |t| && Denotes(tail, t[k..], ci)
  }

  lemma StarForward(t: string, seg: string, rest: string, mark: int, ci: bool)
    requires '%' !in seg && 0 <= mark && FromMark(t, seg + (['%'] + rest), mark, ci)
    ensures FromMark(t, rest, mark + |seg|, ci)
  {
    hide Denotes, Aligned, One;
    var star := ['%'] + rest;
    var k :| mark <= k <= |t| && Denotes(seg + star, t[k..], ci);
    SegmentFirst(seg, star, t[k..], ci);
    var u := t[k..][|seg|..];
    SliceTwice(t, k, k + |seg|);
    var j := StarUsed(rest, u, ci);
    SliceTwice(t, k + |seg|, k + |seg| + j);
  }

  lemma StarBackward(t: string, seg: string, rest: string, mark: int, ci: bool)
    requires '%' !in seg && 0 <= mark && mark + |seg| <= |t| && Aligned(seg, t[mark..mark + |seg|], ci)
    requires FromMark(t, rest, mark + |seg|, ci)
    ensures FromMark(t, seg + (['%'] + rest), mark, ci)
  {
    hide Denotes, Aligned, One;
    var star, ti := ['%'] + rest, mark + |seg|;
    var k :| ti <= k <= |t| && Denotes(rest, t[k..], ci);
    SliceTwice(t, ti, k);
    StarSkips(rest, t[ti..], k - ti, ci);
    SliceTwice(t, mark, ti);
    SegmentFirst(seg, star, t[mark..], ci);
    assert Denotes(seg + star, t[mark..], ci);
  }

  lemma SliceTwice(t: string, a: nat, b: nat)
    requires a <= b <= |t|
    ensures t[a..][b - a..] == t[b..] && t[a..][..b - a] == t[a..b]
  {
  }

  // A '%' stands for any text.
  lemma StarSkips(rest: string, u: string, j: nat, ci: bool)
    requires j <= |u| && Denotes(rest, u[j..], ci)
    ensures Denotes(['%'] + rest, u, ci)
  {
    assert (['%'] + rest)[1..] == rest;
  }

  lemma StarUsed(rest: string, u: string, ci: bool) returns (j: nat)
    requires Denotes(['%'] + rest, u, ci)
    ensures j <= |u| && Denotes(rest, u[j..], ci)
  {
    assert (['%'] + rest)[1..] == rest;
    j :| 0 <= j <= |u| && Denotes(rest, u[j..], ci);
  }

  /** A further '%' makes the earlier one irrelevant: the leftmost fit of the segment between is enough. */
  lemma StarAgain(t: string, seg: string, rest: string, mark: int, ci: bool)
    requires '%' !in seg && 0 <= mark && mark + |seg| <= |t| && Aligned(seg, t[mark..mark + |seg|], ci)
    ensures FromMark(t, seg + (['%'] + rest), mark, ci) <==> FromMark(t, rest, mark + |seg|, ci)
  {
    if FromMark(t, seg + (['%'] + rest), mark, ci) { StarForward(t, seg, rest, mark, ci); }
    if FromMark(t, rest, mark + |seg|, ci) { StarBackward(t, seg, rest, mark, ci); }
  }

  // ---- correctness ----

  /** What is still to be shown from a cursor position. */
  ghost predicate Remaining(t: string, p: string, ci: bool, ti: int, pi: int, star: int, mark: int)
    requires Cursors(t, p, ti, pi, star, mark)
  {
    if star == -1 then Denotes(p[pi..], t[ti..], ci) else FromMark(t, p[star + 1..], mark, ci)
  }

  /** The segment read since the remembered '%' has none and lines up with the text read since. */
  ghost predicate InStep(t: string, p: string, ci: bool, ti: int, pi: int, star: int, mark: int)
    requires Cursors(t, p, ti, pi, star, mark)
  {
    star != -1 ==> '%' !in p[star + 1..pi] && Aligned(p[star + 1..pi], t[mark..ti], ci)
  }

  lemma {:induction false} GoCorrect(t: string, p: string, ci: bool, ti: int, pi: int, star: int, mark: int)
    requires Cursors(t, p, ti, pi, star, mark) && InStep(t, p, ci, ti, pi, star, mark)
    requires '%' !in t
    ensures Go(t, p, ci, ti, pi, star, mark) <==> Remaining(t, p, ci, ti, pi, star, mark)
    decreases |t| - mark, |p| - pi
  {
    hide Denotes, Aligned, AllStars, FromMark, InStep, Remaining;
    if ti == |t| {
      GoAtEnd(t, p, ci, pi, star, mark);
    } else if pi < |p| && One(p[pi], t[ti], ci) {
      GoAdvance(t, p, ci, ti, pi, star, mark);
      GoCorrect(t, p, ci, ti + 1, pi + 1, star, mark);
    } else if pi < |p| && p[pi] == '%' {
      GoStar(t, p, ci, ti, pi, star, mark);
      GoCorrect(t, p, ci, ti, pi + 1, pi, ti);
    } else if star != -1 {
      GoBack(t, p, ci, ti, pi, star, mark);
      GoCorrect(t, p, ci, mark + 1, star + 1, star, mark + 1);
    } else {
      GoStuck(t, p, ci, ti, pi, mark);
    }
  }

  lemma GoStuck(t: string, p: string, ci: bool, ti: int, pi: int, mark: int)
    requires Cursors(t, p, ti, pi, -1, mark)
    requires ti < |t| && (pi < |p| ==> !One(p[pi], t[ti], ci) && p[pi] != '%')
    ensures !Remaining(t, p, ci, ti, pi, -1, mark)
  {
    if pi < |p| {
      assert p[pi..][0] == p[pi] && t[ti..][0] == t[ti];
    }
  }

  lemma GoAtEnd(t: string, p: string, ci: bool, pi: int, star: int, mark: int)
    requires Cursors(t, p, |t|, pi, star, mark) && InStep(t, p, ci, |t|, pi, star, mark)
    ensures AllStars(p[pi..]) <==> Remaining(t, p, ci, |t|, pi, star, mark)
  {
    var none := t[|t|..];
    assert none == [];
    StarsDenoteEmpty(p[pi..], ci);
    if star != -1 {
      var seg, rest := p[star + 1..pi], p[pi..];
      assert p[star + 1..] == seg + rest;
      assert t[mark..][..|seg|] == t[mark..|t|] && t[mark..][|seg|..] == none;
      SegmentFirst(seg, rest, t[mark..], ci);
      forall k | mark < k <= |t| ensures !Denotes(seg + rest, t[k..], ci) || Denotes(rest, none, ci) {
        SegmentFirst(seg, rest, t[k..], ci);
      }
    }
  }

  lemma GoAdvance(t: string, p: string, ci: bool, ti: int, pi: int, star: int, mark: int)
    requires Cursors(t, p, ti, pi, star, mark) && InStep(t, p, ci, ti, pi, star, mark)
    requires ti < |t| && pi < |p| && One(p[pi], t[ti], ci) && t[ti] != '%'
    ensures InStep(t, p, ci, ti + 1, pi + 1, star, mark)
    ensures Remaining(t, p, ci, ti, pi, star, mark) <==> Remaining(t, p, ci, ti + 1, pi + 1, star, mark)
  {
    assert p[pi] != '%';
    assert p[pi..][0] == p[pi] && p[pi..][1..] == p[pi + 1..] && t[ti..][0] == t[ti] && t[ti..][1..] == t[ti + 1..];
    if star != -1 {
      assert p[star + 1..pi + 1] == p[star + 1..pi] + [p[pi]];
      assert t[mark..ti + 1] == t[mark..ti] + [t[ti]];
    }
  }

  lemma GoStar(t: string, p: string, ci: bool, ti: int, pi: int, star: int, mark: int)
    requires Cursors(t, p, ti, pi, star, mark) && InStep(t, p, ci, ti, pi, star, mark)
    requires ti < |t| && pi < |p| && p[pi] == '%'
    ensures InStep(t, p, ci, ti, pi + 1, pi, ti)
    ensures Remaining(t, p, ci, ti, pi, star, mark) <==> Remaining(t, p, ci, ti, pi + 1, pi, ti)
  {
    if star == -1 {
      var tail := p[pi..];
      assert tail[0] == '%' && tail[1..] == p[pi + 1..];
      if FromMark(t, p[pi + 1..], ti, ci) {
        var k :| ti <= k <= |t| && Denotes(p[pi + 1..], t[k..], ci);
        assert t[ti..][k - ti..] == t[k..];
      }
      if Denotes(tail, t[ti..], ci) {
        var k :| 0 <= k <= |t[ti..]| && Denotes(tail[1..], t[ti..][k..], ci);
        assert t[ti..][k..] == t[ti + k..];
      }
    } else {
      var seg, rest := p[star + 1..pi], p[pi + 1..];
      assert p[star + 1..] == seg + (['%'] + rest);
      StarAgain(t, seg, rest, mark, ci);
    }
  }

  lemma GoBack(t: string, p: string, ci: bool, ti: int, pi: int, star: int, mark: int)
    requires Cursors(t, p, ti, pi, star, mark) && InStep(t, p, ci, ti, pi, star, mark)
    requires ti < |t| && star != -1
    requires pi < |p| ==> !One(p[pi], t[ti], ci) && p[pi] != '%'
    ensures InStep(t, p, ci, mark + 1, star + 1, star, mark + 1)
    ensures Remaining(t, p, ci, ti, pi, star, mark) <==> Remaining(t, p, ci, mark + 1, star + 1, star, mark + 1)
  {
    var seg, rest := p[star + 1..pi], p[pi..];
    assert p[star + 1..] == seg + rest;
    SegmentFirst(seg, rest, t[mark..], ci);
    assert t[mark..][|seg|..] == t[ti..];
    if pi < |p| { assert rest[0] == p[pi] && t[ti..][0] == t[ti]; }
    assert !Denotes(rest, t[ti..], ci);
  }

  /** On texts without '%' the matcher decides exactly what patterns denote. */
  lemma MatchesDenotes(t: string, p: string, ci: bool)
    requires '%' !in t
    ensures Matches(t, p, ci) <==> Denotes(p, t, ci)
  {
    assert p[0..] == p && t[0..] == t;
    GoCorrect(t, p, ci, 0, 0, -1, 0);
  }

  // ---- texts with '%' ----

  function Blanks(n: nat): string { seq(n, _ => '_') }

  /** A pattern the matcher gets wrong for text `t`, whose first '%' is at `j`. */
  function Spoiler(t: string, j: nat): string
    requires j < |t|
  {
    t[..j] + ['%'] + Blanks(|t| - j)
  }

  lemma {:induction false} SpoilerRun(t: string, j: nat, ci: bool, i: nat)
    requires j < |t| && t[j] == '%' && i <= |t|
    ensures !Go(t, Spoiler(t, j), ci, i, i, -1, 0)
    decreases |t| - i
  {
    var p := Spoiler(t, j);
    if i < |t| {
      SpoilerRun(t, j, ci, i + 1);
    } else {
      assert p[i..] == ['_'];
    }
  }

  lemma BlanksDenote(n: nat, t: string, ci: bool)
    requires |t| == n
    ensures Denotes(Blanks(n), t, ci)
  {
    var none: string := [];
    assert t[..n] == t && t[n..] == none && Blanks(n) + none == Blanks(n);
    SegmentFirst(Blanks(n), none, t, ci);
  }

  lemma SpoilerDenotes(t: string, j: nat, ci: bool)
    requires j < |t| && '%' !in t[..j]
    ensures Denotes(Spoiler(t, j), t, ci)
  {
    var seg, rest := t[..j], ['%'] + Blanks(|t| - j);
    assert Spoiler(t, j) == seg + rest;
    BlanksDenote(|t| - j, t[j..], ci);
    assert rest[0] == '%' && rest[1..] == Blanks(|t| - j) && t[j..][0..] == t[j..];
    SegmentFirst(seg, rest, t, ci);
  }

  /** The matcher is right about a text for every pattern exactly when the text has no '%'. */
  lemma MatcherRightIff(t: string, ci: bool)
    ensures (forall p :: Matches(t, p, ci) <==> Denotes(p, t, ci)) <==> '%' !in t
  {
    if '%' !in t {
      forall p ensures Matches(t, p, ci) <==> Denotes(p, t, ci) { MatchesDenotes(t, p, ci); }
    } else {
      var j := FirstPercent(t);
      SpoilerRun(t, j, ci, 0);
      SpoilerDenotes(t, j, ci);
      assert !Matches(t, Spoiler(t, j), ci);
    }
  }

  lemma {:induction false} FirstPercent(t: string) returns (j: nat)
    requires '%' in t
    ensures j < |t| && t[j] == '%' && '%' !in t[..j]
    decreases |t|
  {
    if t[0] == '%' { return 0; }
    assert t == [t[0]] + t[1..];
    var i := FirstPercent(t[1..]);
    assert t[..i + 1] == [t[0]] + t[1..][..i];
    return i + 1;
  }
}
