/** The subset of Go's `strings`, `fmt` and `path/filepath` behaviour the controller relies on,
    over strings taken as sequences of Unicode code points. Comparison of Go strings with `<`
    is byte-wise over UTF-8, which orders the same way as code points, so `LexLess` on
    `seq<char>` stands for it. */
module GoStrings {

  /** White space as Go's `unicode.IsSpace` and the scanner of `fmt` define it. */
  predicate IsSpace(c: char) {
    var n := c as int;
    (9 <= n <= 13) || n == 32 || n == 0x85 || n == 0xA0 || n == 0x1680
    || (0x2000 <= n <= 0x200A) || n == 0x2028 || n == 0x2029 || n == 0x202F
    || n == 0x205F || n == 0x3000
  }

  predicate HasPrefix(s: string, p: string) {
    |p| <= |s| && s[..|p|] == p
  }

  function TrimPrefix(s: string, p: string): (r: string)
    ensures HasPrefix(s, p) ==> s == p + r
    ensures !HasPrefix(s, p) ==> r == s
  {
    if HasPrefix(s, p) then s[|p|..] else s
  }

  lemma TrimPrefixOfConcat(p: string, t: string)
    ensures HasPrefix(p + t, p) && TrimPrefix(p + t, p) == t
  {
    assert (p + t)[..|p|] == p;
  }

  /** Drops leading white space: what is dropped is all space, what is kept does not start with it. */
  function TrimLeftSpace(s: string): (r: string)
    ensures |r| <= |s| && r == s[|s| - |r|..]
    ensures forall i :: 0 <= i < |s| - |r| ==> IsSpace(s[i])
    ensures r == [] || !IsSpace(r[0])
  {
    if |s| > 0 && IsSpace(s[0]) then TrimLeftSpace(s[1..]) else s
  }

  /** Drops trailing white space. */
  function TrimRightSpace(s: string): (r: string)
    ensures |r| <= |s| && r == s[..|r|]
    ensures forall i :: |r| <= i < |s| ==> IsSpace(s[i])
    ensures r == [] || !IsSpace(r[|r| - 1])
  {
    if |s| > 0 && IsSpace(s[|s| - 1]) then TrimRightSpace(s[..|s| - 1]) else s
  }

  /** Everything of `s` before `i` and from `j` on is white space. */
  predicate SpaceOutside(s: string, i: int, j: int)
    requires 0 <= i <= j <= |s|
  {
    (forall k :: 0 <= k < i ==> IsSpace(s[k])) && (forall k :: j <= k < |s| ==> IsSpace(s[k]))
  }

  /** `strings.TrimSpace`: the infix of `s` left once white space is removed from both ends. */
  function TrimSpace(s: string): (r: string)
    ensures exists i, j :: 0 <= i <= j <= |s| && r == s[i..j]
    ensures r == [] || (!IsSpace(r[0]) && !IsSpace(r[|r| - 1]))
  {
    var l := TrimLeftSpace(s);
    var r := TrimRightSpace(l);
    var i := |s| - |l|;
    assert 0 <= i <= i + |r| <= |s| && r == s[i..i + |r|];
    r
  }

  /** What `TrimSpace` removes is white space, at both ends. */
  lemma TrimSpaceDropsSpace(s: string)
    ensures exists i, j :: 0 <= i <= j <= |s| && TrimSpace(s) == s[i..j] && SpaceOutside(s, i, j)
  {
    TrimBothEnds(s, TrimLeftSpace(s), TrimRightSpace(TrimLeftSpace(s)));
  }

  /** Stripping a white-space prefix and then a white-space suffix leaves an infix of `s`
      with white space on both sides of it. */
  lemma TrimBothEnds(s: string, l: string, r: string)
    requires |l| <= |s| && l == s[|s| - |l|..] && forall k :: 0 <= k < |s| - |l| ==> IsSpace(s[k])
    requires |r| <= |l| && r == l[..|r|] && forall k :: |r| <= k < |l| ==> IsSpace(l[k])
    ensures var i := |s| - |l|;
      0 <= i <= i + |r| <= |s| && r == s[i..i + |r|] && SpaceOutside(s, i, i + |r|)
  {
    var i := |s| - |l|;
    forall k | i + |r| <= k < |s| ensures IsSpace(s[k]) {
      assert l[k - i] == s[k];
    }
  }

  /** A string that neither starts nor ends with white space. */
  predicate IsTrimmed(s: string) {
    s == [] || (!IsSpace(s[0]) && !IsSpace(s[|s| - 1]))
  }

  lemma TrimSpaceOfTrimmed(s: string)
    requires IsTrimmed(s)
    ensures TrimSpace(s) == s
  {
  }

  /** Trimming twice is trimming once. */
  lemma TrimSpaceIdempotent(s: string)
    ensures TrimSpace(TrimSpace(s)) == TrimSpace(s)
  {
    TrimSpaceOfTrimmed(TrimSpace(s));
  }

  /** The position of the first `c` in `s`. */
  function IndexOf(s: string, c: char): (i: nat)
    requires c in s
    ensures i < |s| && s[i] == c && c !in s[..i]
  {
    if s[0] == c then 0 else 1 + IndexOf(s[1..], c)
  }

  /** The first occurrence is the only one with no separator before it. */
  lemma {:induction false} IndexOfUnique(s: string, c: char, j: nat)
    requires j < |s| && s[j] == c && c !in s[..j]
    ensures IndexOf(s, c) == j
  {
    if s[0] != c {
      assert s[1..][..j - 1] == s[..j][1..];
      IndexOfUnique(s[1..], c, j - 1);
    }
  }

  /** `strings.Split` with a one-character separator: the pieces between the separators, at least one. */
  function Split(s: string, c: char): (parts: seq<string>)
    ensures |parts| >= 1
    ensures forall k :: 0 <= k < |parts| ==> c !in parts[k]
    decreases |s|
  {
    if c in s then
      var i := IndexOf(s, c);
      [s[..i]] + Split(s[i + 1..], c)
    else
      [s]
  }

  /** `strings.Join` with a one-character separator. */
  function Join(parts: seq<string>, c: char): string
  {
    if |parts| == 0 then []
    else if |parts| == 1 then parts[0]
    else parts[0] + [c] + Join(parts[1..], c)
  }

  /** `strings.SplitN(s, sep, 2)` with a one-character separator: the text before the first
      separator and everything after it, or `s` alone when it has no separator. */
  function SplitN2(s: string, c: char): (parts: seq<string>)
    ensures |parts| == 2 <==> c in s
    ensures |parts| == 1 || |parts| == 2
    ensures |parts| == 1 ==> parts[0] == s
    ensures |parts| == 2 ==> parts[0] + [c] + parts[1] == s && c !in parts[0]
  {
    if c in s then
      var i := IndexOf(s, c);
      assert s == s[..i] + [c] + s[i + 1..];
      [s[..i], s[i + 1..]]
    else
      [s]
  }

  lemma {:induction false} SplitNoSeparator(s: string, c: char)
    requires c !in s
    ensures Split(s, c) == [s]
  {
  }

  /** Splitting at the first separator: the piece before it, then the split of the rest. */
  lemma SplitAtFirst(pre: string, c: char, post: string)
    requires c !in pre
    ensures Split(pre + [c] + post, c) == [pre] + Split(post, c)
  {
    var s := pre + [c] + post;
    assert s[|pre|] == c && s[..|pre|] == pre;
    IndexOfUnique(s, c, |pre|);
    assert s[|pre| + 1..] == post;
  }

  /** Splitting at a separator splits the two sides independently. */
  lemma {:induction false} SplitAround(a: string, c: char, b: string)
    ensures Split(a + [c] + b, c) == Split(a, c) + Split(b, c)
    decreases |a|
  {
    if c in a {
      var j := IndexOf(a, c);
      var pre, rest := a[..j], a[j + 1..];
      calc {
        Split(a + [c] + b, c);
        { assert a + [c] + b == pre + [c] + (rest + [c] + b);
          SplitAtFirst(pre, c, rest + [c] + b); }
        [pre] + Split(rest + [c] + b, c);
        { SplitAround(rest, c, b); }
        [pre] + (Split(rest, c) + Split(b, c));
        ([pre] + Split(rest, c)) + Split(b, c);
        { assert a == pre + [c] + rest;
          SplitAtFirst(pre, c, rest); }
        Split(a, c) + Split(b, c);
      }
    } else {
      SplitAtFirst(a, c, b);
      SplitNoSeparator(a, c);
    }
  }

  /** Joining the pieces of a split gives back the string. */
  lemma {:induction false} JoinSplit(s: string, c: char)
    ensures Join(Split(s, c), c) == s
    decreases |s|
  {
    if c in s {
      var i := IndexOf(s, c);
      var pre, rest := s[..i], s[i + 1..];
      var tail := Split(rest, c);
      assert Split(s, c) == [pre] + tail;
      assert Join([pre] + tail, c) == pre + [c] + Join(tail, c) by {
        assert ([pre] + tail)[1..] == tail;
      }
      JoinSplit(rest, c);
      assert s == pre + [c] + rest;
    }
  }

  /** Splitting a join gives back the pieces, provided none of them holds the separator. */
  lemma {:induction false} SplitJoin(parts: seq<string>, c: char)
    requires |parts| >= 1
    requires forall k :: 0 <= k < |parts| ==> c !in parts[k]
    ensures Split(Join(parts, c), c) == parts
  {
    if |parts| == 1 {
      SplitNoSeparator(parts[0], c);
    } else {
      var tail := parts[1..];
      assert forall k :: 0 <= k < |tail| ==> c !in tail[k] by {
        forall k | 0 <= k < |tail| ensures c !in tail[k] {
          assert tail[k] == parts[k + 1];
        }
      }
      SplitJoin(tail, c);
      assert c !in parts[0];
      SplitAtFirst(parts[0], c, Join(tail, c));
      assert parts == [parts[0]] + tail;
    }
  }

  /** Go's `<` on strings: lexicographic, a proper prefix sorts first. */
  predicate LexLess(a: string, b: string) {
    if |a| == 0 then |b| > 0
    else if |b| == 0 then false
    else if a[0] < b[0] then true
    else if a[0] == b[0] then LexLess(a[1..], b[1..])
    else false
  }

  lemma {:induction false} LexLessIrreflexive(a: string)
    ensures !LexLess(a, a)
  {
    if |a| > 0 { LexLessIrreflexive(a[1..]); }
  }

  lemma {:induction false} LexLessTransitive(a: string, b: string, c: string)
    requires LexLess(a, b) && LexLess(b, c)
    ensures LexLess(a, c)
  {
    if |a| > 0 && |b| > 0 && |c| > 0 && a[0] == b[0] == c[0] {
      LexLessTransitive(a[1..], b[1..], c[1..]);
    }
  }

  /** Any two different strings are ordered one way or the other. */
  lemma {:induction false} LexLessTotal(a: string, b: string)
    requires a != b
    ensures LexLess(a, b) || LexLess(b, a)
  {
    if |a| > 0 && |b| > 0 && a[0] == b[0] {
      assert a == [a[0]] + a[1..] && b == [b[0]] + b[1..];
      LexLessTotal(a[1..], b[1..]);
    }
  }

  lemma LexLessAsymmetric(a: string, b: string)
    requires LexLess(a, b)
    ensures !LexLess(b, a)
  {
    if LexLess(b, a) {
      LexLessTransitive(a, b, a);
      LexLessIrreflexive(a);
    }
  }

  /** "`a` sorts no later than `b`", the order `sort.Slice` with `<` establishes. */
  predicate LexLeq(a: string, b: string) {
    !LexLess(b, a)
  }

  lemma LexLeqTransitive(a: string, b: string, c: string)
    requires LexLeq(a, b) && LexLeq(b, c)
    ensures LexLeq(a, c)
  {
    if LexLess(c, a) {
      if a == b {
      } else {
        LexLessTotal(a, b);
        LexLessTransitive(c, a, b);
      }
    }
  }

  /** Comparing strings whose first parts have the same width compares the first parts,
      then the rest: the reason fixed-width timestamps sort chronologically. */
  lemma {:induction false} LexLessConcat(a1: string, b1: string, a2: string, b2: string)
    requires |a1| == |a2|
    ensures LexLess(a1 + b1, a2 + b2) <==> LexLess(a1, a2) || (a1 == a2 && LexLess(b1, b2))
  {
    if |a1| == 0 {
      assert a1 + b1 == b1 && a2 + b2 == b2;
    } else {
      assert (a1 + b1)[0] == a1[0] && (a2 + b2)[0] == a2[0];
      assert (a1 + b1)[1..] == a1[1..] + b1 && (a2 + b2)[1..] == a2[1..] + b2;
      LexLessConcat(a1[1..], b1, a2[1..], b2);
      if a1[0] == a2[0] {
        assert a1 == a2 <==> a1[1..] == a2[1..] by {
          assert a1 == [a1[0]] + a1[1..] && a2 == [a2[0]] + a2[1..];
        }
      }
    }
  }

  // ---- decimal digits -------------------------------------------------------------

  predicate IsDigit(c: char) {
    48 <= c as int <= 57
  }

  function DigitChar(d: nat): (c: char)
    requires d < 10
    ensures IsDigit(c) && c as int - 48 == d
  {
    (d + 48) as char
  }

  function Pow10(w: nat): (p: nat)
    ensures p >= 1
  {
    if w == 0 then 1 else 10 * Pow10(w - 1)
  }

  /** The value of a string of decimal digits, most significant first. */
  function DigitsValue(ds: string): nat
    requires forall i :: 0 <= i < |ds| ==> IsDigit(ds[i])
  {
    if ds == [] then 0
    else
      assert IsDigit(ds[|ds| - 1]);
      10 * DigitsValue(ds[..|ds| - 1]) + (ds[|ds| - 1] as int - 48)
  }

  /** `n` written with exactly `w` decimal digits, zero-padded on the left. */
  function Pad(n: nat, w: nat): (r: string)
    requires n < Pow10(w)
    ensures |r| == w
    ensures forall i :: 0 <= i < |r| ==> IsDigit(r[i])
  {
    if w == 0 then [] else Pad(n / 10, w - 1) + [DigitChar(n % 10)]
  }

  /** Reading a padded number back gives the number. */
  lemma {:induction false} PadValue(n: nat, w: nat)
    requires n < Pow10(w)
    ensures DigitsValue(Pad(n, w)) == n
  {
    if w > 0 {
      PadValue(n / 10, w - 1);
      var r := Pad(n, w);
      assert r[..|r| - 1] == Pad(n / 10, w - 1);
    }
  }

  /** Zero-padded numbers of one width sort as the numbers do. */
  lemma DivModOrder(x: nat, y: nat)
    ensures x < y <==> x / 10 < y / 10 || (x / 10 == y / 10 && x % 10 < y % 10)
  {
    assert x == 10 * (x / 10) + x % 10 && y == 10 * (y / 10) + y % 10;
  }

  lemma DivBound(x: nat, p: nat)
    requires x < 10 * p
    ensures x / 10 < p
  {
  }

  lemma {:induction false} PadOrder(x: nat, y: nat, w: nat)
    requires x < Pow10(w) && y < Pow10(w)
    ensures LexLess(Pad(x, w), Pad(y, w)) <==> x < y
  {
    if w > 0 {
      var qx, qy, rx, ry := x / 10, y / 10, x % 10, y % 10;
      DivBound(x, Pow10(w - 1));
      DivBound(y, Pow10(w - 1));
      var hx, hy := Pad(qx, w - 1), Pad(qy, w - 1);
      var dx, dy := DigitChar(rx), DigitChar(ry);
      assert Pad(x, w) == hx + [dx] && Pad(y, w) == hy + [dy];
      assert LexLess(hx + [dx], hy + [dy]) <==> LexLess(hx, hy) || (hx == hy && LexLess([dx], [dy])) by {
        LexLessConcat(hx, [dx], hy, [dy]);
      }
      assert LexLess(hx, hy) <==> qx < qy by {
        PadOrder(qx, qy, w - 1);
      }
      assert hx == hy <==> qx == qy by {
        PadValue(qx, w - 1);
        PadValue(qy, w - 1);
      }
      assert LexLess([dx], [dy]) <==> rx < ry;
      DivModOrder(x, y);
    }
  }

  // ---- path/filepath ----------------------------------------------------------------

  function DropTrailingSlashes(p: string): (r: string)
    ensures |r| <= |p| && r == p[..|r|]
    ensures r == [] || r[|r| - 1] != '/'
  {
    if |p| > 0 && p[|p| - 1] == '/' then DropTrailingSlashes(p[..|p| - 1]) else p
  }

  /** The text after the last slash. */
  function LastElement(p: string): (r: string)
    ensures '/' !in r
    ensures |r| <= |p| && r == p[|p| - |r|..]
    ensures |r| < |p| ==> p[|p| - |r| - 1] == '/'
  {
    if |p| > 0 && p[|p| - 1] != '/' then LastElement(p[..|p| - 1]) + [p[|p| - 1]] else []
  }

  /** `filepath.Base` on a slash-separated path: the last element once trailing slashes are
      dropped; "." for the empty path and "/" for a path of slashes only. */
  function Base(p: string): (r: string)
    ensures r != []
    ensures '/' in r ==> r == "/"
  {
    if p == [] then "."
    else
      var q := DropTrailingSlashes(p);
      var e := LastElement(q);
      if e == [] then "/" else e
  }

  /** The base of `dir/name` is `name`, for a non-empty name without slashes. */
  lemma {:induction false} BaseOfJoin(dir: string, name: string)
    requires name != [] && '/' !in name
    ensures Base(dir + "/" + name) == name
  {
    var p := dir + "/" + name;
    assert p[|p| - 1] == name[|name| - 1];
    assert DropTrailingSlashes(p) == p;
    LastElementOfJoin(dir, name);
  }

  lemma {:induction false} LastElementOfJoin(dir: string, name: string)
    requires '/' !in name
    ensures LastElement(dir + "/" + name) == name
    decreases |name|
  {
    var p := dir + "/" + name;
    if name == [] {
      assert p[|p| - 1] == '/';
    } else {
      var n' := name[..|name| - 1];
      assert p[..|p| - 1] == dir + "/" + n';
      assert p[|p| - 1] == name[|name| - 1];
      LastElementOfJoin(dir, n');
      assert name == n' + [name[|name| - 1]];
    }
  }
}
