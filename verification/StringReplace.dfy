/** String::replace and String::lastIndexOf of WString.cpp: a NUL-terminated buffer rewritten
    while it is being searched. */
module StringReplace {

  const NUL: char := '\0'

  predicate NulFree(s: string) {
    NUL !in s
  }

  // ---------- occurrences ----------

  predicate Occurs(s: string, f: string, i: int) {
    0 <= i && i + |f| <= |s| && s[i..i + |f|] == f
  }

  lemma OccursInPrefix(s: string, f: string, n: nat, j: int)
    requires n <= |s|
    ensures Occurs(s[..n], f, j) <==> Occurs(s, f, j) && j + |f| <= n
  {
    if 0 <= j && j + |f| <= n {
      assert s[..n][j..j + |f|] == s[j..j + |f|];
    }
  }

  lemma OccursInSuffix(s: string, f: string, n: nat, j: int)
    requires n <= |s|
    ensures Occurs(s[n..], f, j) <==> j >= 0 && Occurs(s, f, n + j)
  {
    if 0 <= j && n + j + |f| <= |s| {
      assert s[n..][j..j + |f|] == s[n + j..n + j + |f|];
    }
  }

  ghost predicate None(s: string, f: string) {
    forall j :: !Occurs(s, f, j)
  }

  /** What strstr promises: the first occurrence, or -1 when there is none. */
  ghost predicate IsFirst(s: string, f: string, i: int) {
    if i == -1 then None(s, f) else Occurs(s, f, i) && forall j :: Occurs(s, f, j) ==> i <= j
  }

  lemma {:induction false} HasFirst(s: string, f: string, n: nat)
    requires forall j :: Occurs(s, f, j) ==> n <= j
    ensures exists i :: IsFirst(s, f, i)
    decreases |s| - n
  {
    if Occurs(s, f, n) {
      assert IsFirst(s, f, n);
    } else if n < |s| {
      HasFirst(s, f, n + 1);
    } else {
      assert IsFirst(s, f, -1);
    }
  }

  ghost function First(s: string, f: string): (r: int)
    ensures -1 <= r && (r >= 0 ==> r + |f| <= |s|)
  {
    HasFirst(s, f, 0);
    var i :| IsFirst(s, f, i);
    i
  }

  lemma FirstIs(s: string, f: string, i: int)
    ensures IsFirst(s, f, i) <==> i == First(s, f)
  {
    HasFirst(s, f, 0);
    var r := First(s, f);
    assert IsFirst(s, f, r);
  }

  /** The last occurrence that starts no later than `from`, or -1. */
  ghost predicate IsLast(s: string, f: string, from: int, i: int) {
    && (i == -1 || (Occurs(s, f, i) && i <= from))
    && forall j :: Occurs(s, f, j) && j <= from ==> j <= i
  }

  lemma {:induction false} HasLast(s: string, f: string, from: int, n: int)
    requires forall j :: Occurs(s, f, j) && j <= from ==> j <= n
    requires n <= from
    ensures exists i :: IsLast(s, f, from, i)
    decreases if n < 0 then 0 else n + 1
  {
    if Occurs(s, f, n) {
      assert IsLast(s, f, from, n);
    } else if n >= 0 {
      HasLast(s, f, from, n - 1);
    } else {
      assert IsLast(s, f, from, -1);
    }
  }

  ghost function Last(s: string, f: string, from: int): (r: int)
    ensures -1 <= r && (r >= 0 ==> r <= from && r + |f| <= |s|)
  {
    HasLast(s, f, from, from);
    var i :| IsLast(s, f, from, i);
    i
  }

  lemma LastIs(s: string, f: string, from: int, i: int)
    ensures IsLast(s, f, from, i) <==> i == Last(s, f, from)
  {
    HasLast(s, f, from, from);
    var r := Last(s, f, from);
    assert IsLast(s, f, from, r);
  }

  // ---------- what replacing means ----------

  /** Leftmost occurrences that do not overlap, replaced once each. */
  ghost function Subst(s: string, f: string, r: string): string
    requires f != ""
    decreases |s|
  {
    var i := First(s, f);
    if i < 0 then s else s[..i] + r + Subst(s[i + |f|..], f, r)
  }

  function Replaced(s: string, n: nat, r: string, i: nat): (t: string)
    requires i + n <= |s|
    ensures |t| == |s| + |r| - n
  {
    s[..i] + r + s[i + n..]
  }

  /** What the growing branch computes: from `from` down, the last occurrence in the text as it
      then is. */
  ghost function Backward(s: string, f: string, r: string, from: int): (t: string)
    requires f != "" && |f| <= |r|
    ensures |t| >= |s|
    decreases if from < 0 then 0 else from + 1
  {
    var i := Last(s, f, from);
    if i < 0 then s else Backward(Replaced(s, |f|, r, i), f, r, i - 1)
  }

  /** The text between the replaced occurrences. */
  ghost function Pieces(s: string, f: string): (p: seq<string>)
    requires f != ""
    ensures p != []
    decreases |s|
  {
    var i := First(s, f);
    if i < 0 then [s] else [s[..i]] + Pieces(s[i + |f|..], f)
  }

  function Joined(p: seq<string>, sep: string): string
    requires p != []
  {
    if |p| == 1 then p[0] else p[0] + sep + Joined(p[1..], sep)
  }

  /** The cut before `f` comes as early as it can. */
  ghost predicate EarlyCut(piece: string, f: string) {
    IsFirst(piece + f, f, |piece|)
  }

  /** No replaced occurrence could have been taken earlier, and none was left over. */
  ghost predicate Leftmost(p: seq<string>, f: string)
    requires p != []
  {
    if |p| == 1 then None(p[0], f) else EarlyCut(p[0], f) && Leftmost(p[1..], f)
  }

  /** An early cut is where strstr finds the first occurrence, whatever follows. */
  lemma EarlyCutIs(piece: string, f: string, rest: string)
    requires f != ""
    ensures EarlyCut(piece, f) <==> First(piece + f + rest, f) == |piece|
  {
    var s := piece + f + rest;
    FirstIs(s, f, |piece|);
    assert s[..|piece| + |f|] == piece + f;
    forall j ensures Occurs(piece + f, f, j) <==> Occurs(s, f, j) && j <= |piece| {
      OccursInPrefix(s, f, |piece| + |f|, j);
    }
  }

  /** An independent account of replacing: the text is cut at the leftmost occurrences, and joining
      the same pieces with the replacement is the result. */
  lemma {:induction false} SubstMeaning(s: string, f: string, r: string)
    requires f != ""
    ensures var p := Pieces(s, f); Leftmost(p, f) && Joined(p, f) == s && Joined(p, r) == Subst(s, f, r)
    decreases |s|
  {
    var i := First(s, f);
    FirstIs(s, f, i);
    if i >= 0 {
      var rest := s[i + |f|..];
      SubstMeaning(rest, f, r);
      assert Pieces(s, f)[1..] == Pieces(rest, f);
      assert s == s[..i] + f + rest;
      EarlyCutIs(s[..i], f, rest);
    }
  }

  /** Only one way of cutting is leftmost, so the pieces above are the only ones. */
  lemma {:induction false} PiecesUnique(p: seq<string>, f: string)
    requires f != "" && p != [] && Leftmost(p, f)
    ensures Pieces(Joined(p, f), f) == p
    decreases |p|
  {
    var s := Joined(p, f);
    if |p| == 1 {
      FirstIs(s, f, -1);
    } else {
      var rest := Joined(p[1..], f);
      PiecesUnique(p[1..], f);
      EarlyCutIs(p[0], f, rest);
      assert s[..|p[0]|] == p[0] && s[|p[0]| + |f|..] == rest;
    }
  }

  // ---------- when going backward is the same ----------

  /** `f` overlaps a copy of itself shifted by `k`. */
  predicate Overlaps(f: string, k: int) {
    1 <= k < |f| && f[k..] == f[..|f| - k]
  }

  /** The end of `f` from `k` on is how the replacement begins. */
  predicate Straddles(f: string, r: string, k: int) {
    1 <= k < |f| <= |r| + k && f[k..] == r[..|f| - k]
  }

  ghost predicate Unbordered(f: string) {
    forall k :: !Overlaps(f, k)
  }

  ghost predicate Clear(f: string, r: string) {
    forall k :: !Straddles(f, r, k)
  }

  /** Two occurrences in one text overlap only if `f` overlaps itself. */
  lemma Apart(s: string, f: string, i: int, j: int)
    requires Occurs(s, f, i) && Occurs(s, f, j) && i < j && Unbordered(f)
    ensures i + |f| <= j
  {
    var k := j - i;
    assert !Overlaps(f, k);
    if k < |f| {
      Slide(s, f, i, k);
    }
  }

  lemma Slide(s: string, f: string, i: nat, k: nat)
    requires k < |f| && i + k + |f| <= |s|
    requires s[i..i + |f|] == f && s[i + k..i + k + |f|] == f
    ensures f[k..] == f[..|f| - k]
  {
    assert s[i..i + |f|][k..] == s[i + k..i + |f|] == s[i + k..i + k + |f|][..|f| - k];
  }

  lemma FirstInPrefix(s: string, f: string, i: nat)
    requires f != "" && Occurs(s, f, i) && Unbordered(f)
    ensures 0 <= First(s, f) <= i
    ensures First(s, f) < i ==> First(s[..i], f) == First(s, f) && First(s, f) + |f| <= i
    ensures First(s, f) == i ==> First(s[..i], f) == -1
  {
    var j := First(s, f);
    FirstIs(s, f, j);
    forall m ensures Occurs(s[..i], f, m) <==> Occurs(s, f, m) && m + |f| <= i {
      OccursInPrefix(s, f, i, m);
    }
    if j < i {
      Apart(s, f, j, i);
      FirstIs(s[..i], f, j);
    } else {
      FirstIs(s[..i], f, -1);
    }
  }

  /** Without overlaps a text may be cut at any occurrence before replacing. */
  lemma {:induction false} SplitAt(s: string, f: string, r: string, i: nat)
    requires f != "" && Unbordered(f) && Occurs(s, f, i)
    ensures Subst(s, f, r) == Subst(s[..i], f, r) + r + Subst(s[i + |f|..], f, r)
    decreases |s|
  {
    var j := First(s, f);
    FirstInPrefix(s, f, i);
    if j < i {
      var rest, n := s[j + |f|..], i - j - |f|;
      OccursInSuffix(s, f, j + |f|, n);
      SplitAt(rest, f, r, n);
      SplitRest(s, f, r, i, j, rest, n);
    } else {
      SplitFirst(s, f, r, i);
    }
  }

  lemma {:induction false} SplitFirst(s: string, f: string, r: string, i: nat)
    requires f != "" && First(s, f) == i && First(s[..i], f) == -1
    ensures Subst(s, f, r) == Subst(s[..i], f, r) + r + Subst(s[i + |f|..], f, r)
  {
    SubstNone(s[..i], f, r);
    SubstCut(s, f, r, i);
  }

  lemma {:induction false} SubstNone(s: string, f: string, r: string)
    requires f != "" && First(s, f) == -1
    ensures Subst(s, f, r) == s
  {
  }

  lemma {:induction false} SplitRest(s: string, f: string, r: string, i: nat, j: nat, rest: string, n: nat)
    requires f != "" && i + |f| <= |s| && First(s, f) == j && First(s[..i], f) == j
    requires i == j + |f| + n && rest == s[j + |f|..]
    requires Subst(rest, f, r) == Subst(rest[..n], f, r) + r + Subst(rest[n + |f|..], f, r)
    ensures Subst(s, f, r) == Subst(s[..i], f, r) + r + Subst(s[i + |f|..], f, r)
  {
    Slices(s, j, j + |f|, i, i + |f|);
    assert rest[n + |f|..] == s[i + |f|..];
    SplitLater(s, f, r, i, j, rest, rest[..n], rest[n + |f|..]);
  }

  lemma {:induction false} SplitLater(s: string, f: string, r: string, i: nat, j: nat,
                                      rest: string, middle: string, tail: string)
    requires f != "" && j + |f| <= i <= |s| && First(s, f) == j && First(s[..i], f) == j
    requires rest == s[j + |f|..] && middle == s[..i][j + |f|..] && s[..i][..j] == s[..j]
    requires Subst(rest, f, r) == Subst(middle, f, r) + r + Subst(tail, f, r)
    ensures Subst(s, f, r) == Subst(s[..i], f, r) + r + Subst(tail, f, r)
  {
    SubstCut(s, f, r, j);
    SubstCut(s[..i], f, r, j);
    Chain(Subst(s, f, r), s[..j], Subst(rest, f, r),
          Subst(s[..i], f, r), Subst(middle, f, r), Subst(tail, f, r), r);
  }

  /** Concatenation is associative. */
  lemma Chain(whole: string, a: string, bc: string, ab: string, b: string, c: string, r: string)
    requires whole == a + r + bc && bc == b + r + c && ab == a + r + b
    ensures whole == ab + r + c
  {
  }

  lemma {:induction false} SubstCut(s: string, f: string, r: string, i: nat)
    requires f != "" && First(s, f) == i
    ensures i + |f| <= |s| && Subst(s, f, r) == s[..i] + r + Subst(s[i + |f|..], f, r)
  {
  }

  lemma Slices(s: string, a: nat, b: nat, c: nat, d: nat)
    requires a <= b <= c <= d <= |s|
    ensures s[..c][..a] == s[..a] && s[..c][b..] == s[b..][..c - b] && s[b..][d - b..] == s[d..]
  {
  }

  lemma Regroup(a: string, b: string, c: string, d: string, e: string)
    ensures a + b + (c + d + e) == (a + b + c) + d + e
  {
  }

  lemma NoneAfterLast(s: string, f: string, i: int)
    requires f != "" && i == Last(s, f, |s| - 1)
    ensures if i < 0 then First(s, f) == -1 else Occurs(s, f, i) && First(s[i + |f|..], f) == -1
  {
    LastIs(s, f, |s| - 1, i);
    if i < 0 {
      FirstIs(s, f, -1);
    } else {
      var rest := s[i + |f|..];
      forall j ensures !Occurs(rest, f, j) {
        OccursInSuffix(s, f, i + |f|, j);
      }
      FirstIs(rest, f, -1);
    }
  }

  /** Left of a replacement already made, the search sees only the text that was always there. */
  lemma LastBefore(u: string, r: string, tail: string, f: string)
    requires f != "" && |f| <= |r| && Clear(f, r)
    ensures Last(u + r + tail, f, |u| - 1) == Last(u, f, |u| - 1)
  {
    var s := u + r + tail;
    assert s[..|u|] == u;
    forall j ensures Occurs(s, f, j) && j <= |u| - 1 <==> Occurs(u, f, j) {
      OccursInPrefix(s, f, |u|, j);
      if Occurs(s, f, j) && j < |u| < j + |f| {
        Straddling(u, r, tail, f, j);
      }
    }
    LastIs(s, f, |u| - 1, Last(u, f, |u| - 1));
    LastIs(u, f, |u| - 1, Last(u, f, |u| - 1));
  }

  lemma Straddling(u: string, r: string, tail: string, f: string, j: int)
    requires |f| <= |r| && Occurs(u + r + tail, f, j) && j < |u| < j + |f|
    ensures Straddles(f, r, |u| - j)
  {
    var s, k := u + r + tail, |u| - j;
    assert s[j..j + |f|][k..] == s[|u|..j + |f|] == r[..|f| - k];
  }

  lemma {:induction false} BackwardLeftOf(u: string, f: string, r: string, tail: string)
    requires f != "" && |f| <= |r| && Unbordered(f) && Clear(f, r)
    ensures Backward(u + r + tail, f, r, |u| - 1) == Subst(u, f, r) + r + tail
    decreases |u|
  {
    var s, i := u + r + tail, Last(u, f, |u| - 1);
    LastBefore(u, r, tail, f);
    NoneAfterLast(u, f, i);
    if i >= 0 {
      var front, back := u[..i], u[i + |f|..];
      assert s[..i] == front && s[i + |f|..] == back + r + tail;
      BackwardLeftOf(front, f, r, back + r + tail);
      SplitAt(u, f, r, i);
      Regroup(Subst(front, f, r), r, back, r, tail);
    }
  }

  predicate Clean(f: string, r: string) {
    forall k: nat | 1 <= k < |f| :: !Overlaps(f, k) && !Straddles(f, r, k)
  }

  ghost predicate BothWaysAgree(s: string, f: string, r: string)
    requires f != "" && |f| <= |r|
  {
    Backward(s, f, r, |s| - 1) == Subst(s, f, r)
  }

  /** With a clean pattern the growing branch replaces like the others, on every text. */
  lemma {:induction false} CleanAgrees(s: string, f: string, r: string)
    requires f != "" && |f| <= |r| && Clean(f, r)
    ensures BothWaysAgree(s, f, r)
  {
    assert Unbordered(f) && Clear(f, r);
    var i := Last(s, f, |s| - 1);
    NoneAfterLast(s, f, i);
    if i >= 0 {
      BackwardLeftOf(s[..i], f, r, s[i + |f|..]);
      SplitAt(s, f, r, i);
    }
  }

  /** The text on which a pattern that is not clean shows. */
  function Clash(f: string, k: nat): string
    requires k <= |f|
  {
    f[..k] + f
  }

  lemma {:induction false} ClashEnds(f: string, r: string, k: nat)
    requires 1 <= k < |f| <= |r|
    ensures var s := Clash(f, k);
            Backward(s, f, r, |s| - 1) == Backward(f[..k] + r, f, r, k - 1)
  {
    var s := Clash(f, k);
    assert s[k..k + |f|] == f;
    assert Occurs(s, f, k);
    LastIs(s, f, |s| - 1, k);
    assert Replaced(s, |f|, r, k) == f[..k] + r;
  }

  lemma {:induction false} ClashOnce(f: string, r: string, k: nat)
    requires 1 <= k < |f| <= |r|
    ensures |Subst(Clash(f, k), f, r)| <= k + |r|
  {
    var s := Clash(f, k);
    var i := First(s, f);
    if i >= 0 {
      FirstIs(s[i + |f|..], f, -1);
    }
  }

  /** If the end of `f` starts the replacement, one occurrence too many is replaced, and the result
      is longer than what was counted. */
  lemma {:induction false} StraddleShows(f: string, r: string, k: nat)
    requires |f| < |r| && Straddles(f, r, k)
    ensures var s := Clash(f, k); |Backward(s, f, r, |s| - 1)| > |Subst(s, f, r)|
    ensures !BothWaysAgree(Clash(f, k), f, r)
  {
    ClashEnds(f, r, k);
    ClashOnce(f, r, k);
    ClashTwice(f, r, k);
  }

  lemma {:induction false} ClashTwice(f: string, r: string, k: nat)
    requires |f| < |r| && Straddles(f, r, k)
    ensures |Backward(f[..k] + r, f, r, k - 1)| > k + |r|
  {
    var t := f[..k] + r;
    assert t[0..|f|] == f[..k] + f[k..] == f;
    assert Occurs(t, f, 0);
    LastIs(t, f, k - 1, Last(t, f, k - 1));
  }

  /** If `f` only overlaps itself, the wrong occurrence is replaced. */
  lemma {:induction false} OverlapShows(f: string, r: string, k: nat)
    requires |f| < |r| && Overlaps(f, k) && Clear(f, r)
    ensures !BothWaysAgree(Clash(f, k), f, r)
  {
    ClashLast(f, r, k);
    ClashFirst(f, r, k);
    var tail := f[|f| - k..];
    assert !Straddles(f, r, k);
    if f[..k] + r == r + tail {
      SharedPeriod(f, r, tail, k, |f| - k);
    }
  }

  lemma {:induction false} ClashLast(f: string, r: string, k: nat)
    requires |f| < |r| && 1 <= k < |f| && Clear(f, r)
    ensures var s := Clash(f, k); Backward(s, f, r, |s| - 1) == f[..k] + r
  {
    ClashEnds(f, r, k);
    LastBefore(f[..k], r, "", f);
    assert f[..k] + r + "" == f[..k] + r && |f[..k]| == k;
    LastIs(f[..k], f, k - 1, -1);
  }

  lemma {:induction false} ClashFirst(f: string, r: string, k: nat)
    requires Overlaps(f, k)
    ensures Subst(Clash(f, k), f, r) == r + f[|f| - k..]
  {
    var s, tail := Clash(f, k), f[|f| - k..];
    assert s[0..|f|] == f[..k] + f[..|f| - k] == f && s[|f|..] == tail;
    assert Occurs(s, f, 0);
    FirstIs(s, f, 0);
    FirstIs(tail, f, -1);
    assert s[..0] + r + tail == r + tail;
  }

  lemma {:induction false} SharedPeriod(f: string, r: string, tail: string, k: nat, n: nat)
    requires |f| < |r| && Overlaps(f, k) && n <= |f| && f[..k] + r == r + tail
    ensures r[..n] == f[..n]
  {
    if n > 0 {
      SharedPeriod(f, r, tail, k, n - 1);
      var i := n - 1;
      assert r[i] == (r + tail)[i] == (f[..k] + r)[i];
      if i >= k {
        assert r[i - k] == r[..i][i - k] == f[..i][i - k];
        assert f[k..][i - k] == f[..|f| - k][i - k];
      }
    }
  }

  /** Exactly when the growing branch is right: the pattern neither overlaps itself nor ends in the
      beginning of the replacement. */
  lemma GrowingIsRightIff(f: string, r: string)
    requires 0 < |f| < |r| && NulFree(f)
    ensures (forall s :: NulFree(s) ==> BothWaysAgree(s, f, r)) <==> Clean(f, r)
  {
    if Clean(f, r) {
      forall s ensures BothWaysAgree(s, f, r) {
        CleanAgrees(s, f, r);
      }
    } else {
      var k: nat :| 1 <= k < |f| && (Overlaps(f, k) || Straddles(f, r, k));
      NotClean(f, r, k);
    }
  }

  lemma NotClean(f: string, r: string, k: nat)
    requires |f| < |r| && NulFree(f) && (Overlaps(f, k) || Straddles(f, r, k))
    ensures exists s :: NulFree(s) && !BothWaysAgree(s, f, r)
  {
    if j: nat :| j < |f| && Straddles(f, r, j) {
      StraddleShows(f, r, j);
      assert NulFree(Clash(f, j));
    } else {
      OverlapShows(f, r, k);
      assert NulFree(Clash(f, k));
    }
  }

  // ---------- when the counted size is enough ----------

  /** How many replacements the counting loop sees. */
  ghost function Left(s: string, f: string): nat
    requires f != ""
    decreases |s|
  {
    var i := First(s, f);
    if i < 0 then 0 else 1 + Left(s[i + |f|..], f)
  }

  lemma {:induction false} SubstLength(s: string, f: string, r: string)
    requires f != "" && |f| <= |r|
    ensures |Subst(s, f, r)| == |s| + Left(s, f) * (|r| - |f|)
    decreases |s|
  {
    var i := First(s, f);
    if i >= 0 {
      var rest, d := s[i + |f|..], |r| - |f|;
      SubstLength(rest, f, r);
      assert (1 + Left(rest, f)) * d == d + Left(rest, f) * d;
    }
  }

  /** Cutting a text at its last occurrence takes one from the count, overlaps or not. */
  lemma {:induction false} LeftOfLast(s: string, f: string, i: nat)
    requires f != "" && i == Last(s, f, |s| - 1)
    ensures Left(s, f) == 1 + Left(s[..i], f)
    decreases |s|
  {
    var j := First(s, f);
    NoneAfterLast(s, f, i);
    FirstBeforeLast(s, f, j, i);
    if j + |f| <= i {
      LastInRest(s, f, j, i);
      LeftOfLast(s[j + |f|..], f, i - j - |f|);
      Slices(s, j, j + |f|, i, i + |f|);
    }
  }

  lemma FirstBeforeLast(s: string, f: string, j: int, i: nat)
    requires f != "" && j == First(s, f) && i == Last(s, f, |s| - 1)
    ensures 0 <= j <= i
    ensures First(s[..i], f) == if j + |f| <= i then j else -1
    ensures j + |f| > i ==> First(s[j + |f|..], f) == -1
  {
    FirstIs(s, f, j);
    LastIs(s, f, |s| - 1, i);
    var front := s[..i];
    forall m ensures Occurs(front, f, m) <==> Occurs(s, f, m) && m + |f| <= i {
      OccursInPrefix(s, f, i, m);
    }
    FirstIs(front, f, if j + |f| <= i then j else -1);
    if j + |f| > i {
      var rest := s[j + |f|..];
      forall m ensures !Occurs(rest, f, m) {
        OccursInSuffix(s, f, j + |f|, m);
      }
      FirstIs(rest, f, -1);
    }
  }

  lemma LastInRest(s: string, f: string, j: nat, i: nat)
    requires f != "" && i == Last(s, f, |s| - 1) && j + |f| <= i
    ensures var rest := s[j + |f|..]; Last(rest, f, |rest| - 1) == i - j - |f|
  {
    LastIs(s, f, |s| - 1, i);
    var rest := s[j + |f|..];
    forall m ensures Occurs(rest, f, m) <==> m >= 0 && Occurs(s, f, j + |f| + m) {
      OccursInSuffix(s, f, j + |f|, m);
    }
    LastIs(rest, f, |rest| - 1, i - j - |f|);
  }

  /** As long as nothing straddles, working backward replaces as often as was counted. */
  lemma {:induction false} BackwardLength(u: string, f: string, r: string, tail: string)
    requires f != "" && |f| <= |r| && Clear(f, r)
    ensures |Backward(u + r + tail, f, r, |u| - 1)| == |u| + Left(u, f) * (|r| - |f|) + |r| + |tail|
    decreases |u|
  {
    var s, i := u + r + tail, Last(u, f, |u| - 1);
    LastBefore(u, r, tail, f);
    NoneAfterLast(u, f, i);
    if i >= 0 {
      var front, back := u[..i], u[i + |f|..];
      assert s[..i] == front && s[i + |f|..] == back + r + tail;
      BackwardLength(front, f, r, back + r + tail);
      LeftOfLast(u, f, i);
      OneMore(Left(front, f), |r| - |f|);
    }
  }

  lemma OneMore(n: nat, d: nat)
    ensures (1 + n) * d == n * d + d
  {
  }

  ghost predicate SizesAgree(s: string, f: string, r: string)
    requires f != "" && |f| <= |r|
  {
    |Backward(s, f, r, |s| - 1)| == |Subst(s, f, r)|
  }

  lemma {:induction false} ClearSizesAgree(s: string, f: string, r: string)
    requires f != "" && |f| <= |r| && Clear(f, r)
    ensures SizesAgree(s, f, r)
  {
    SubstLength(s, f, r);
    var i := Last(s, f, |s| - 1);
    NoneAfterLast(s, f, i);
    if i >= 0 {
      BackwardLength(s[..i], f, r, s[i + |f|..]);
      LeftOfLast(s, f, i);
      OneMore(Left(s[..i], f), |r| - |f|);
    }
  }

  /** Exactly when the size counted beforehand is the final length: the pattern does not end in the
      beginning of the replacement. Patterns that overlap themselves do no harm here. */
  lemma CountedSizeIsRightIff(f: string, r: string)
    requires 0 < |f| < |r| && NulFree(f)
    ensures (forall s :: NulFree(s) ==> SizesAgree(s, f, r)) <==> Clear(f, r)
  {
    if Clear(f, r) {
      forall s ensures SizesAgree(s, f, r) {
        ClearSizesAgree(s, f, r);
      }
    } else {
      var k :| Straddles(f, r, k);
      StraddleShows(f, r, k);
      assert NulFree(Clash(f, k));
    }
  }

  function Max(a: int, b: int): int {
    if a < b then b else a
  }

  /** The size counted from the left, or the room there already was, is enough for the work. */
  ghost predicate HasRoom(s: string, f: string, r: string, capacity: int) {
    0 < |f| < |r| ==> |Backward(s, f, r, |s| - 1)| <= Max(capacity, |Subst(s, f, r)|)
  }

  /** The work stays inside the buffer, for every text and every capacity, exactly under the same
      condition; without it, a text shows that fills its buffer and overruns it. */
  lemma RoomIff(f: string, r: string)
    requires 0 < |f| < |r| && NulFree(f)
    ensures (forall s, capacity: nat | NulFree(s) && |s| <= capacity :: HasRoom(s, f, r, capacity)) <==> Clear(f, r)
  {
    if Clear(f, r) {
      forall s, capacity: nat | NulFree(s) && |s| <= capacity ensures HasRoom(s, f, r, capacity) {
        ClearSizesAgree(s, f, r);
      }
    } else {
      var k :| Straddles(f, r, k);
      Overrun(f, r, k);
    }
  }

  lemma Overrun(f: string, r: string, k: nat)
    requires |f| < |r| && Straddles(f, r, k) && NulFree(f)
    ensures var s := Clash(f, k); NulFree(s) && !HasRoom(s, f, r, |s|)
  {
    var s := Clash(f, k);
    StraddleShows(f, r, k);
    SubstGrows(s, f, r);
  }

  // ---------- the buffer ----------

  class ArduinoString {
    var buffer: array<char>
    var len: nat

    ghost predicate Valid()
      reads this, buffer
    {
      len < buffer.Length && buffer[len] == NUL && NulFree(buffer[..len])
    }

    ghost function Contents(): string
      requires Valid()
      reads this, buffer
    {
      buffer[..len]
    }

    /** strstr on the C string that starts at `from` and ends at the NUL at `end`. */
    method StrStr(from: nat, f: string, ghost end: nat) returns (at: int)
      requires from <= end < buffer.Length && buffer[end] == NUL && NulFree(buffer[..][from..end])
      requires f != "" && NulFree(f)
      ensures at == Found(buffer[..], f, from, end)
    {
      ghost var rest := buffer[..][from..end];
      assert rest == buffer[from..end];
      at := from;
      while buffer[at] != NUL
        invariant from <= at <= end
        invariant forall j :: Occurs(rest, f, j) ==> j >= at - from
        decreases end - at
      {
        var here := StartsWith(at, f, end);
        if here {
          assert rest[at - from..at - from + |f|] == buffer[at..at + |f|];
          FirstIs(rest, f, at - from);
          return;
        }
        assert !Occurs(rest, f, at - from) by {
          if at + |f| <= end {
            assert rest[at - from..at - from + |f|] == buffer[at..at + |f|];
          }
        }
        at := at + 1;
      }
      EndsAt(buffer[..], from, end, at);
      FirstIs(rest, f, -1);
      at := -1;
    }

    method StartsWith(at: nat, f: string, ghost end: nat) returns (yes: bool)
      requires at <= end < buffer.Length && buffer[end] == NUL && NulFree(f)
      ensures yes <==> at + |f| <= end && buffer[at..at + |f|] == f
    {
      var i := 0;
      while i < |f|
        invariant 0 <= i <= |f| && at + i <= end && buffer[at..at + i] == f[..i]
      {
        if buffer[at + i] != f[i] {
          assert at + |f| <= end ==> buffer[at..at + |f|][i] == buffer[at + i];
          return false;
        }
        assert at + i < end;
        i := i + 1;
      }
      return true;
    }

    /** The greatest start no later than `fromIndex`; -1 also for an empty pattern. */
    method LastIndexOf(f: string, fromIndex: nat) returns (found: int)
      requires Valid() && NulFree(f)
      ensures found == if f == "" then -1 else Last(Contents(), f, fromIndex)
    {
      if f == "" || len == 0 || |f| > len {
        LastIs(Contents(), f, fromIndex, -1);
        return -1;
      }
      var last := if fromIndex >= len then len - 1 else fromIndex;
      found := -1;
      ghost var s := Contents();
      var p := 0;
      while p <= last
        invariant 0 <= p <= len && -1 <= found < p
        invariant found >= 0 ==> found <= last && Occurs(s, f, found)
        invariant forall j :: Occurs(s, f, j) && j < p && j <= last ==> j <= found
        decreases len - p
      {
        assert buffer[..][p..len] == s[p..];
        var at := StrStr(p, f, len);
        NextFound(s, f, p, at);
        if at < 0 {
          break;
        }
        if at <= last {
          found := at;
        }
        p := at + 1;
      }
      LastIs(s, f, fromIndex, found);
    }

    /** memcpy and strcpy towards the front, byte by byte upwards, so an overlap does no harm. */
    method CopyDown(to: nat, from: nat, n: nat)
      requires to <= from && from + n <= buffer.Length
      modifies buffer
      ensures Written(old(buffer[..]), buffer[..], to, old(buffer[..])[from..from + n])
    {
      var i := 0;
      while i < n
        invariant 0 <= i <= n
        invariant forall k :: to <= k < to + i ==> buffer[k] == old(buffer[k + from - to])
        invariant forall k :: 0 <= k < to || to + i <= k < buffer.Length ==> buffer[k] == old(buffer[k])
      {
        assert buffer[from + i] == old(buffer[from + i]);
        buffer[to + i] := buffer[from + i];
        i := i + 1;
      }
      CopyIs(old(buffer[..]), buffer[..], to, old(buffer[..])[from..from + n]);
    }

    /** memmove of `n` bytes away from the front. */
    method CopyUp(to: nat, from: nat, n: nat)
      requires from <= to && to + n <= buffer.Length
      modifies buffer
      ensures Written(old(buffer[..]), buffer[..], to, old(buffer[..])[from..from + n])
    {
      var i := n;
      while i > 0
        invariant 0 <= i <= n
        invariant forall k :: to + i <= k < to + n ==> buffer[k] == old(buffer[k + from - to])
        invariant forall k :: 0 <= k < to + i || to + n <= k < buffer.Length ==> buffer[k] == old(buffer[k])
      {
        i := i - 1;
        buffer[to + i] := buffer[from + i];
      }
      CopyIs(old(buffer[..]), buffer[..], to, old(buffer[..])[from..from + n]);
    }

    /** memcpy from another string. */
    method CopyIn(to: nat, r: string)
      requires to + |r| <= buffer.Length
      modifies buffer
      ensures Written(old(buffer[..]), buffer[..], to, r)
    {
      forall i | 0 <= i < |r| {
        buffer[to + i] := r[i];
      }
    }

    /** The replacement has the length of the pattern: overwritten where found. */
    method ReplaceEqual(f: string, r: string)
      requires Valid() && NulFree(f) && NulFree(r) && |f| == |r| > 0
      modifies buffer
      ensures Valid() && Contents() == Subst(old(Contents()), f, r)
    {
      ghost var s := Contents();
      var readFrom := 0;
      Begun(buffer[..], len, f, r);
      var foundAt := StrStr(readFrom, f, len);
      while foundAt >= 0
        invariant Scanning(buffer[..], s, f, r, readFrom, readFrom, len)
        invariant foundAt == Found(buffer[..], f, readFrom, len)
        decreases len - readFrom
      {
        readFrom := OverwriteFound(s, f, r, readFrom, foundAt);
        foundAt := StrStr(readFrom, f, len);
      }
      FinishedInPlace(buffer[..], s, f, r, readFrom, len);
    }

    method OverwriteFound(ghost s: string, ghost f: string, r: string, ghost readFrom: nat, foundAt: nat)
      returns (next: nat)
      requires f != "" && NulFree(r) && |r| == |f| && Scanning(buffer[..], s, f, r, readFrom, readFrom, len)
      requires foundAt == Found(buffer[..], f, readFrom, len)
      modifies buffer
      ensures next == foundAt + |r| && Scanning(buffer[..], s, f, r, next, next, len)
    {
      ghost var mem := buffer[..];
      CopyIn(foundAt, r);
      ScanInPlace(mem, buffer[..], s, f, r, readFrom, len, foundAt);
      next := foundAt + |r|;
    }

    /** The replacement is shorter: everything moves towards the front. */
    method ReplaceShrink(f: string, r: string)
      requires Valid() && NulFree(f) && NulFree(r) && |r| < |f|
      modifies this`len, buffer
      ensures Valid() && Contents() == Subst(old(Contents()), f, r)
    {
      ghost var s, end := Contents(), len;
      var readFrom, writeTo := 0, 0;
      Begun(buffer[..], len, f, r);
      var foundAt := StrStr(readFrom, f, end);
      while foundAt >= 0
        invariant Scanning(buffer[..], s, f, r, writeTo, readFrom, end) && buffer == old(buffer)
        invariant len == writeTo + (end - readFrom)
        invariant foundAt == Found(buffer[..], f, readFrom, end)
        decreases end - readFrom
      {
        writeTo := MoveAndWrite(s, f, r, writeTo, readFrom, end, foundAt);
        readFrom := foundAt + |f|;
        len := len + (|r| - |f|);
        foundAt := StrStr(readFrom, f, end);
      }
      MoveTail(s, f, r, writeTo, readFrom, end);
    }

    /** The final strcpy, NUL included. */
    method MoveTail(ghost s: string, ghost f: string, ghost r: string, writeTo: nat, readFrom: nat, ghost end: nat)
      requires f != "" && Scanning(buffer[..], s, f, r, writeTo, readFrom, end)
      requires Found(buffer[..], f, readFrom, end) < 0 && len == writeTo + (end - readFrom)
      modifies buffer
      ensures Valid() && Contents() == Subst(s, f, r)
    {
      ghost var mem := buffer[..];
      Finished(mem, s, f, r, writeTo, readFrom, end);
      CopyDown(writeTo, readFrom, len - writeTo + 1);
      TailMoved(mem, buffer[..], writeTo, readFrom, end);
    }

    /** The replacement is longer: the size is counted from the left, the work is done from the
        right. Where the work would go past the end of the buffer the model stops and says so; what
        the code does from there on is undefined. */
    method ReplaceGrow(f: string, r: string) returns (overrun: bool)
      requires Valid() && NulFree(f) && NulFree(r) && 0 < |f| < |r|
      modifies this, buffer
      ensures Valid() && (buffer == old(buffer) || fresh(buffer))
      ensures overrun <==> !HasRoom(old(Contents()), f, r, old(buffer.Length) - 1)
      ensures !overrun ==> var s := old(Contents()); Contents() == Backward(s, f, r, |s| - 1)
    {
      ghost var s := Contents();
      var size := SizeNeeded(f, r);
      if size == len {
        NothingFound(s, f, r);
        return false;
      }
      if size > buffer.Length - 1 {
        ChangeBuffer(size);
      }
      overrun := WorkBackward(f, r);
    }

    /** The first loop of the growing branch. */
    method SizeNeeded(f: string, r: string) returns (size: nat)
      requires Valid() && NulFree(f) && 0 < |f| < |r|
      ensures size == |Subst(Contents(), f, r)|
    {
      ghost var s := Contents();
      var diff := |r| - |f|;
      var readFrom := 0;
      size := len;
      assert buffer[..][0..len] == s;
      var foundAt := StrStr(readFrom, f, len);
      while foundAt >= 0
        invariant readFrom <= len && foundAt == Found(buffer[..], f, readFrom, len)
        invariant var rest := buffer[..][readFrom..len]; size - |rest| + |Subst(rest, f, r)| == |Subst(s, f, r)|
        invariant size >= len - readFrom
        decreases len - readFrom
      {
        ghost var rest, n := buffer[..][readFrom..len], foundAt - readFrom;
        SubstCut(rest, f, r, n);
        Within(buffer[..], readFrom, foundAt, foundAt + |f|, len);
        readFrom := foundAt + |f|;
        size := size + diff;
        foundAt := StrStr(readFrom, f, len);
      }
    }

    /** realloc, which keeps the contents. */
    method ChangeBuffer(maxStrLen: nat)
      requires Valid() && len <= maxStrLen
      modifies this
      ensures Valid() && fresh(buffer) && buffer.Length == maxStrLen + 1
      ensures Contents() == old(Contents())
    {
      var bigger := new char[maxStrLen + 1];
      forall i | 0 <= i <= len {
        bigger[i] := buffer[i];
      }
      assert bigger[..len] == buffer[..len];
      buffer := bigger;
    }

    /** The second loop of the growing branch. */
    method WorkBackward(f: string, r: string) returns (overrun: bool)
      requires Valid() && NulFree(f) && NulFree(r) && 0 < |f| < |r|
      modifies this, buffer
      ensures Valid() && buffer == old(buffer)
      ensures var s := old(Contents());
              && (overrun <==> |Backward(s, f, r, |s| - 1)| >= buffer.Length)
              && (!overrun ==> Contents() == Backward(s, f, r, |s| - 1))
    {
      ghost var all := Backward(Contents(), f, r, len - 1);
      var index := len - 1;
      while index >= 0
        invariant Valid() && buffer == old(buffer) && -1 <= index < len
        invariant Backward(Contents(), f, r, index) == all
        decreases index
      {
        var at := LastIndexOf(f, index);
        if at < 0 {
          return false;
        }
        if len + |r| - |f| >= buffer.Length {
          return true;
        }
        InsertAt(f, r, at);
        index := at - 1;
      }
      LastIs(Contents(), f, index, -1);
      return false;
    }

    /** One turn: the tail moves up, the end is marked again, and the replacement goes in. */
    method InsertAt(f: string, r: string, index: nat)
      requires Valid() && NulFree(r) && |f| < |r| && index + |f| <= len && len + |r| - |f| < buffer.Length
      modifies this, buffer
      ensures Valid() && buffer == old(buffer)
      ensures Contents() == Replaced(old(Contents()), |f|, r, index)
    {
      ghost var mem, s := buffer[..], Contents();
      var readFrom, diff := index + |f|, |r| - |f|;
      CopyUp(readFrom + diff, readFrom, len - readFrom);
      ghost var moved := buffer[..];
      len := len + diff;
      buffer[len] := NUL;
      ghost var ended := buffer[..];
      CopyIn(index, r);
      Inserted(mem, moved, ended, buffer[..], s, |f|, r, index);
    }

    /** The three branches together. Growing never overruns when the pattern is clear of the
        replacement, and is the leftmost substitution when it is clean. */
    method Replace(f: string, r: string) returns (overrun: bool)
      requires Valid() && NulFree(f) && NulFree(r)
      modifies this, buffer
      ensures Valid() && (buffer == old(buffer) || fresh(buffer))
      ensures overrun <==> !HasRoom(old(Contents()), f, r, old(buffer.Length) - 1)
      ensures Clear(f, r) ==> !overrun
      ensures f == "" ==> Contents() == old(Contents())
      ensures f != "" && (|r| <= |f| || Clean(f, r)) ==> Contents() == Subst(old(Contents()), f, r)
      ensures 0 < |f| < |r| && !overrun ==> var s := old(Contents()); Contents() == Backward(s, f, r, |s| - 1)
    {
      ghost var s := Contents();
      if len == 0 || f == "" {
        if f != "" {
          FirstIs("", f, -1);
          LastIs("", f, -1, -1);
        }
        return false;
      }
      overrun := false;
      var diff := |r| - |f|;
      if diff == 0 {
        ReplaceEqual(f, r);
      } else if diff < 0 {
        ReplaceShrink(f, r);
      } else {
        GrowingFacts(s, f, r);
        overrun := ReplaceGrow(f, r);
      }
    }

    method MoveAndWrite(ghost s: string, ghost f: string, r: string, writeTo: nat, readFrom: nat, ghost end: nat,
                        foundAt: nat)
      returns (next: nat)
      requires f != "" && NulFree(r) && |r| <= |f| && Scanning(buffer[..], s, f, r, writeTo, readFrom, end)
      requires foundAt == Found(buffer[..], f, readFrom, end)
      modifies buffer
      ensures next == writeTo + (foundAt - readFrom) + |r|
      ensures Scanning(buffer[..], s, f, r, next, foundAt + |f|, end)
    {
      ghost var mem := buffer[..];
      var n := foundAt - readFrom;
      CopyDown(writeTo, readFrom, n);
      ghost var mid := buffer[..];
      CopyIn(writeTo + n, r);
      ScanStep(mem, mid, buffer[..], s, f, r, writeTo, readFrom, end, foundAt);
      next := writeTo + n + |r|;
    }
  }

  lemma EndsAt(mem: string, from: nat, end: nat, at: nat)
    requires from <= at <= end < |mem| && NulFree(mem[from..end]) && mem[at] == NUL
    ensures at == end
  {
    forall k | from <= k < end ensures mem[k] != NUL {
      assert mem[from..end][k - from] == mem[k];
    }
  }

  lemma GrowingFacts(s: string, f: string, r: string)
    requires 0 < |f| < |r|
    ensures Clear(f, r) ==> forall capacity :: HasRoom(s, f, r, capacity)
    ensures Clean(f, r) ==> Clear(f, r) && BothWaysAgree(s, f, r)
  {
    if Clear(f, r) {
      ClearSizesAgree(s, f, r);
    }
    if Clean(f, r) {
      CleanAgrees(s, f, r);
    }
  }

  lemma Inserted(mem: string, moved: string, ended: string, out: string, s: string, n: nat, r: string, i: nat)
    requires |s| <= |mem| && s == mem[..|s|] && i + n <= |s| && NulFree(s) && NulFree(r) && n < |r|
    requires Written(mem, moved, i + |r|, mem[i + n..|s|])
    requires var end := |s| + |r| - n; end < |mem| && ended == moved[end := NUL]
    requires Written(ended, out, i, r)
    ensures var end := |s| + |r| - n;
            out[..end] == Replaced(s, n, r, i) && out[end] == NUL && NulFree(out[..end])
  {
    var end := |s| + |r| - n;
    WrittenRest(ended, out, i, r, i + |r|, end);
    var head, tail := mem[..i + |r|], mem[i + n..|s|];
    assert moved[..end] == head + tail && ended[..end] == moved[..end];
    assert ended[..i] == ended[..end][..i] == head[..i] == s[..i];
    assert ended[i + |r|..end] == ended[..end][i + |r|..] == tail == s[i + n..];
    assert out[..end] == out[..i + |r|] + out[i + |r|..end];
  }

  lemma {:induction false} NothingFound(s: string, f: string, r: string)
    requires 0 < |f| < |r| && |Subst(s, f, r)| == |s|
    ensures Backward(s, f, r, |s| - 1) == s
  {
    SubstGrows(s, f, r);
    FirstIs(s, f, -1);
    LastIs(s, f, |s| - 1, -1);
  }

  lemma {:induction false} SubstGrows(s: string, f: string, r: string)
    requires 0 < |f| < |r|
    ensures |Subst(s, f, r)| >= |s| && (|Subst(s, f, r)| == |s| ==> First(s, f) == -1)
    decreases |s|
  {
    var i := First(s, f);
    if i >= 0 {
      SubstGrows(s[i + |f|..], f, r);
    }
  }

  /** `out` is `mem` with `t` written at `to`. */
  predicate Written(mem: string, out: string, to: int, t: string) {
    && 0 <= to && to + |t| <= |mem| == |out|
    && out[..to + |t|] == mem[..to] + t
    && out[to + |t|..] == mem[to + |t|..]
  }

  lemma CopyIs(mem: string, out: string, to: nat, t: string)
    requires to + |t| <= |mem| == |out|
    requires forall k :: to <= k < to + |t| ==> out[k] == t[k - to]
    requires forall k :: 0 <= k < to || to + |t| <= k < |mem| ==> out[k] == mem[k]
    ensures Written(mem, out, to, t)
  {
    assert out[..to] == mem[..to] && out[to..to + |t|] == t;
    assert out[..to + |t|] == out[..to] + out[to..to + |t|];
  }

  lemma DropThenSlice(s: string, n: nat, a: nat, b: nat)
    requires n <= a <= b <= |s|
    ensures s[n..][a - n..b - n] == s[a..b] && (b < |s| ==> s[n..][b - n] == s[b])
  {
  }

  lemma WrittenRest(mem: string, out: string, to: nat, t: string, a: nat, b: nat)
    requires Written(mem, out, to, t) && to + |t| <= a <= b <= |mem|
    ensures out[a..b] == mem[a..b] && (b < |mem| ==> out[b] == mem[b])
  {
    DropThenSlice(out, to + |t|, a, b);
    DropThenSlice(mem, to + |t|, a, b);
  }

  /** Where strstr points when it starts at `from` in a C string that ends at `end`. */
  ghost function Found(mem: string, f: string, from: nat, end: nat): (at: int)
    requires from <= end <= |mem|
    ensures at >= 0 ==> from <= at && at + |f| <= end
  {
    var i := First(mem[from..end], f);
    if i < 0 then -1 else from + i
  }

  /** Scanning has come to `readFrom`, what is before `writeTo` is finished, and the rest is untouched. */
  ghost predicate Scanning(mem: string, s: string, f: string, r: string, writeTo: int, readFrom: int, end: int)
    requires f != ""
  {
    && 0 <= writeTo <= readFrom <= end < |mem| && mem[end] == NUL
    && NulFree(mem[..writeTo]) && NulFree(mem[readFrom..end])
    && Subst(s, f, r) == mem[..writeTo] + Subst(mem[readFrom..end], f, r)
  }

  lemma {:induction false} Begun(mem: string, end: nat, f: string, r: string)
    requires f != "" && end < |mem| && mem[end] == NUL && NulFree(mem[..end])
    ensures Scanning(mem, mem[..end], f, r, 0, 0, end)
  {
    assert mem[0..end] == mem[..end] && mem[..0] == "";
    var t := Subst(mem[..end], f, r);
    assert "" + t == t;
  }

  /** One turn of the shrinking loop: the text up to the next occurrence and then the replacement
      are written, never past the end of that occurrence. */
  lemma {:induction false} ScanStep(mem: string, mid: string, out: string, s: string, f: string, r: string,
                                    writeTo: nat, readFrom: nat, end: nat, at: nat)
    requires f != "" && NulFree(r) && |r| <= |f| && Scanning(mem, s, f, r, writeTo, readFrom, end)
    requires at == Found(mem, f, readFrom, end) && Written(mem, mid, writeTo, mem[readFrom..at])
    requires Written(mid, out, writeTo + (at - readFrom), r)
    ensures Scanning(out, s, f, r, writeTo + (at - readFrom) + |r|, at + |f|, end)
  {
    var gap := mem[readFrom..at];
    WrittenRest(mem, mid, writeTo, gap, at + |f|, end);
    WrittenRest(mid, out, writeTo + |gap|, r, at + |f|, end);
    assert out[..writeTo + |gap| + |r|] == mem[..writeTo] + gap + r;
    ScanTexts(mem, out, s, f, r, writeTo, readFrom, end, at);
  }

  lemma {:induction false} ScanTexts(mem: string, out: string, s: string, f: string, r: string,
                                     writeTo: nat, readFrom: nat, end: nat, at: nat)
    requires f != "" && NulFree(r) && |r| <= |f| && Scanning(mem, s, f, r, writeTo, readFrom, end)
    requires at == Found(mem, f, readFrom, end) && |out| == |mem|
    requires out[..writeTo + (at - readFrom) + |r|] == mem[..writeTo] + mem[readFrom..at] + r
    requires out[at + |f|..end] == mem[at + |f|..end] && out[end] == mem[end]
    ensures Scanning(out, s, f, r, writeTo + (at - readFrom) + |r|, at + |f|, end)
  {
    var rest, gap, tail := mem[readFrom..end], mem[readFrom..at], mem[at + |f|..end];
    Within(mem, readFrom, at, at + |f|, end);
    NulFreeParts(mem[..writeTo], gap, r);
    SubstCut(rest, f, r, at - readFrom);
    Appended(Subst(s, f, r), mem[..writeTo], Subst(rest, f, r), gap, r, Subst(tail, f, r));
  }

  lemma Within(mem: string, a: nat, b: nat, c: nat, d: nat)
    requires a <= b <= c <= d <= |mem|
    ensures mem[a..d][..b - a] == mem[a..b] && mem[a..d][c - a..] == mem[c..d]
    ensures NulFree(mem[a..d]) ==> NulFree(mem[a..b]) && NulFree(mem[c..d])
  {
    assert mem[a..d] == mem[a..b] + mem[b..c] + mem[c..d];
  }

  lemma NulFreeParts(done: string, gap: string, r: string)
    requires NulFree(done) && NulFree(gap) && NulFree(r)
    ensures NulFree(done + gap + r)
  {
  }

  lemma Appended(whole: string, done: string, rest: string, gap: string, r: string, tail: string)
    requires whole == done + rest && rest == gap + r + tail
    ensures whole == (done + gap + r) + tail
  {
  }

  /** One turn of the loop for equal lengths: the gap stays where it is. */
  lemma {:induction false} ScanInPlace(mem: string, out: string, s: string, f: string, r: string,
                                       readFrom: nat, end: nat, at: nat)
    requires f != "" && NulFree(r) && |r| == |f| && Scanning(mem, s, f, r, readFrom, readFrom, end)
    requires at == Found(mem, f, readFrom, end) && Written(mem, out, at, r)
    ensures Scanning(out, s, f, r, at + |r|, at + |r|, end)
  {
    assert mem[..at] == mem[..readFrom] + mem[readFrom..at];
    ScanStep(mem, mem, out, s, f, r, readFrom, readFrom, end, at);
  }

  /** When nothing more is found, the finished part and the rest are the result. */
  lemma {:induction false} Finished(mem: string, s: string, f: string, r: string, writeTo: nat, readFrom: nat, end: nat)
    requires f != "" && Scanning(mem, s, f, r, writeTo, readFrom, end) && Found(mem, f, readFrom, end) < 0
    ensures Subst(s, f, r) == mem[..writeTo] + mem[readFrom..end]
    ensures NulFree(Subst(s, f, r))
  {
  }

  lemma {:induction false} FinishedInPlace(mem: string, s: string, f: string, r: string, readFrom: nat, end: nat)
    requires f != "" && Scanning(mem, s, f, r, readFrom, readFrom, end) && Found(mem, f, readFrom, end) < 0
    ensures mem[..end] == Subst(s, f, r) && NulFree(mem[..end])
  {
    Finished(mem, s, f, r, readFrom, readFrom, end);
    Halves(mem, readFrom, end);
  }

  lemma Halves(mem: string, a: nat, b: nat)
    requires a <= b <= |mem|
    ensures mem[..a] + mem[a..b] == mem[..b]
  {
  }

  lemma TailMoved(mem: string, out: string, writeTo: nat, readFrom: nat, end: nat)
    requires readFrom <= end < |mem| && mem[end] == NUL && Written(mem, out, writeTo, mem[readFrom..end + 1])
    ensures var n := writeTo + (end - readFrom);
            out[..n] == mem[..writeTo] + mem[readFrom..end] && out[n] == NUL
  {
    var n, tail := writeTo + (end - readFrom), mem[readFrom..end + 1];
    var all := mem[..writeTo] + tail;
    assert out[..n + 1] == all && out[..n] == all[..n] && out[n] == all[n];
    assert tail[..end - readFrom] == mem[readFrom..end];
  }

  lemma NextFound(s: string, f: string, p: nat, at: int)
    requires f != "" && p <= |s|
    requires var i := First(s[p..], f); at == if i < 0 then -1 else p + i
    ensures at >= 0 ==> Occurs(s, f, at)
    ensures forall j :: Occurs(s, f, j) && p <= j ==> 0 <= at <= j
  {
    var rest, i := s[p..], First(s[p..], f);
    FirstIs(rest, f, i);
    OccursInSuffix(s, f, p, i);
    forall j | Occurs(s, f, j) && p <= j ensures 0 <= at <= j {
      OccursInSuffix(s, f, p, j - p);
    }
  }
}
