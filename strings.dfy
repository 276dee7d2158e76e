/** The few Python string operations the core relies on, over `seq<char>`. */
module Strings {

  /** Python's `str.isspace()` for one character: the characters `str.strip()` removes. */
  predicate IsSpace(c: char) {
    var n := c as int;
    n == 0x20 || 0x09 <= n <= 0x0D || 0x1C <= n <= 0x1F || n == 0x85 || n == 0xA0 ||
    n == 0x1680 || 0x2000 <= n <= 0x200A || n == 0x2028 || n == 0x2029 ||
    n == 0x202F || n == 0x205F || n == 0x3000
  }

  predicate IsDigit(c: char) {
    '0' <= c <= '9'
  }

  /** `s` with its leading whitespace removed. */
  function TrimFront(s: string): (r: string)
    ensures |r| <= |s|
  {
    if s != [] && IsSpace(s[0]) then TrimFront(s[1..]) else s
  }

  /** `TrimFront` drops exactly the whitespace before the first other character. */
  lemma {:induction false} TrimFrontSpec(s: string)
    ensures var r := TrimFront(s);
      r == s[|s| - |r|..] && (forall i :: 0 <= i < |s| - |r| ==> IsSpace(s[i])) &&
      (r == [] || !IsSpace(r[0]))
  {
    if s != [] && IsSpace(s[0]) {
      TrimFrontSpec(s[1..]);
    }
  }

  /** `s` with its trailing whitespace removed. */
  function TrimBack(s: string): (r: string)
    ensures |r| <= |s|
  {
    if s != [] && IsSpace(s[|s| - 1]) then TrimBack(s[..|s| - 1]) else s
  }

  /** `TrimBack` drops exactly the whitespace after the last other character. */
  lemma {:induction false} TrimBackSpec(s: string)
    ensures var r := TrimBack(s);
      r == s[..|r|] && (forall i :: |r| <= i < |s| ==> IsSpace(s[i])) &&
      (r == [] || !IsSpace(r[|r| - 1]))
  {
    if s != [] && IsSpace(s[|s| - 1]) {
      TrimBackSpec(s[..|s| - 1]);
    }
  }

  /** Python's `s.strip()`: the part of `s` between its leading and trailing whitespace. */
  function Strip(s: string): (r: string)
    ensures |r| <= |s|
    ensures r != [] ==> !IsSpace(r[0]) && !IsSpace(r[|r| - 1])
  {
    StripEnds(s);
    TrimBack(TrimFront(s))
  }

  lemma StripEnds(s: string)
    ensures var r := TrimBack(TrimFront(s));
      r != [] ==> !IsSpace(r[0]) && !IsSpace(r[|r| - 1])
  {
    var f := TrimFront(s);
    TrimFrontSpec(s);
    TrimBackSpec(f);
    var r := TrimBack(f);
    if r != [] {
      assert r[0] == f[0];
    }
  }

  /**
   * `strip()` keeps a contiguous part of `s`, removes only whitespace around it, and
   * empties exactly the all-whitespace strings.
   */
  lemma StripSpec(s: string)
    ensures Strip(s) == [] <==> forall i :: 0 <= i < |s| ==> IsSpace(s[i])
    ensures IsSubstring(Strip(s), s)
    ensures exists a: nat, b: nat ::
      a <= b <= |s| && Strip(s) == s[a..b] && forall i :: 0 <= i < |s| && (i < a || b <= i) ==> IsSpace(s[i])
  {
    StripOccurs(s);
    var f := TrimFront(s);
    TrimFrontSpec(s);
    TrimBackSpec(f);
    var a := |s| - |f|;
    var b := a + |TrimBack(f)|;
    assert Strip(s) == s[a..b] by {
      assert f == s[a..];
    }
    assert forall i :: 0 <= i < |s| && (i < a || b <= i) ==> IsSpace(s[i]) by {
      forall i | 0 <= i < |s| && b <= i
        ensures IsSpace(s[i])
      {
        assert s[i] == f[i - a];
      }
    }
    if TrimBack(f) == [] {
      AllSpaceFromParts(s, f);
    }
  }

  lemma StripOccurs(s: string)
    ensures IsSubstring(TrimBack(TrimFront(s)), s)
  {
    var f := TrimFront(s);
    TrimFrontSpec(s);
    TrimBackSpec(f);
    var r := TrimBack(f);
    var a := |s| - |f|;
    assert f == s[a..];
    assert r == f[..|r|];
    assert r == s[a..a + |r|];
    assert OccursAt(r, s, a);
  }

  lemma AllSpaceFromParts(s: string, f: string)
    requires f == TrimFront(s) && TrimBack(f) == []
    ensures forall i :: 0 <= i < |s| ==> IsSpace(s[i])
  {
    TrimFrontSpec(s);
    TrimBackSpec(f);
    assert |f| == 0;
  }

  /** Python's `s.rstrip('.')`: `s` without its trailing full stops. */
  function RStripDots(s: string): (r: string)
    ensures |r| <= |s|
    ensures r == [] || r[|r| - 1] != '.'
  {
    if s != [] && s[|s| - 1] == '.' then RStripDots(s[..|s| - 1]) else s
  }

  /** `rstrip('.')` keeps a prefix of `s` and drops only full stops. */
  lemma {:induction false} RStripDotsSpec(s: string)
    ensures var r := RStripDots(s);
      r == s[..|r|] && forall i :: |r| <= i < |s| ==> s[i] == '.'
  {
    if s != [] && s[|s| - 1] == '.' {
      RStripDotsSpec(s[..|s| - 1]);
    }
  }

  /** `k` starts at index `i` of `s`. */
  predicate OccursAt(k: string, s: string, i: nat) {
    i + |k| <= |s| && s[i..i + |k|] == k
  }

  /** Python's `k in s` for strings: `k` is a contiguous part of `s` (the empty string is part of every string). */
  predicate IsSubstring(k: string, s: string) {
    exists i: nat :: i <= |s| && OccursAt(k, s, i)
  }

  /** Python's `k in s`, as a search from the left. */
  function Contains(k: string, s: string): (b: bool)
    ensures b <==> IsSubstring(k, s)
  {
    ContainsFrom(k, s, 0)
  }

  function ContainsFrom(k: string, s: string, i: nat): (b: bool)
    requires i <= |s|
    ensures b <==> exists j: nat :: i <= j <= |s| && OccursAt(k, s, j)
    decreases |s| - i
  {
    if OccursAt(k, s, i) then true
    else if i == |s| then false
    else ContainsFrom(k, s, i + 1)
  }

  /** Concatenation is associative. */
  lemma AppendAssoc<T>(a: seq<T>, b: seq<T>, c: seq<T>)
    ensures a + b + c == a + (b + c)
  {
  }

  /**
   * Python's `sep.join(xs)`: it opens with the first piece. Where every piece lies
   * is stated by `JoinLength` and `JoinPlacement`.
   */
  function Join(xs: seq<string>, sep: string): (r: string)
    ensures xs != [] ==> |xs[0]| <= |r| && r[..|xs[0]|] == xs[0]
  {
    if |xs| == 0 then ""
    else if |xs| == 1 then xs[0]
    else Join(xs[..|xs| - 1], sep) + sep + xs[|xs| - 1]
  }

  /** A join of non-empty pieces is empty exactly when there are no pieces. */
  lemma {:induction false} JoinEmptyIff(xs: seq<string>, sep: string)
    requires forall i :: 0 <= i < |xs| ==> xs[i] != ""
    ensures Join(xs, sep) == "" <==> xs == []
  {
    if |xs| > 1 {
      assert Join(xs, sep) == Join(xs[..|xs| - 1], sep) + sep + xs[|xs| - 1];
    }
  }

  /** Where piece `k` of `sep.join(xs)` starts: the earlier pieces, each with the separator after it. */
  function Start(xs: seq<string>, sep: string, k: nat): nat
    requires k <= |xs|
  {
    if k == 0 then 0 else Start(xs, sep, k - 1) + |xs[k - 1]| + |sep|
  }

  /** Offsets depend only on the pieces before them. */
  lemma {:induction false} StartOfPrefix(xs: seq<string>, ys: seq<string>, sep: string, k: nat)
    requires k <= |xs| <= |ys| && xs == ys[..|xs|]
    ensures Start(xs, sep, k) == Start(ys, sep, k)
  {
    if k > 0 {
      StartOfPrefix(xs, ys, sep, k - 1);
    }
  }

  /** A join is as long as its pieces and one separator between each two neighbours. */
  lemma {:induction false} JoinLength(xs: seq<string>, sep: string)
    ensures xs == [] ==> Join(xs, sep) == ""
    ensures xs != [] ==> |Join(xs, sep)| + |sep| == Start(xs, sep, |xs|)
    decreases |xs|
  {
    if |xs| > 1 {
      var front := xs[..|xs| - 1];
      JoinLength(front, sep);
      StartOfPrefix(front, xs, sep, |front|);
    }
  }

  /**
   * Piece `k` of a join starts after the earlier pieces and their separators, and
   * every piece but the last is followed by exactly one separator. With `JoinLength`
   * this leaves no room for anything else.
   */
  lemma {:induction false} JoinPlacement(xs: seq<string>, sep: string, k: nat)
    requires k < |xs|
    ensures var r, o := Join(xs, sep), Start(xs, sep, k);
      o + |xs[k]| <= |r| && r[o..o + |xs[k]|] == xs[k] &&
      (k < |xs| - 1 ==> o + |xs[k]| + |sep| <= |r| && r[o + |xs[k]|..o + |xs[k]| + |sep|] == sep)
    decreases |xs|
  {
    if |xs| > 1 {
      if k < |xs| - 1 {
        JoinPlacement(xs[..|xs| - 1], sep, k);
        JoinPlacementFront(xs, sep, k);
      } else {
        JoinPlacementLast(xs, sep);
      }
    }
  }

  /** A piece before the last keeps the place it has in the join of the pieces before the last. */
  lemma JoinPlacementFront(xs: seq<string>, sep: string, k: nat)
    requires 1 < |xs| && k < |xs| - 1
    requires var jf, o := Join(xs[..|xs| - 1], sep), Start(xs[..|xs| - 1], sep, k);
      o + |xs[k]| <= |jf| && jf[o..o + |xs[k]|] == xs[k] &&
      (k < |xs| - 2 ==> o + |xs[k]| + |sep| <= |jf| && jf[o + |xs[k]|..o + |xs[k]| + |sep|] == sep)
    ensures var r, o := Join(xs, sep), Start(xs, sep, k);
      o + |xs[k]| <= |r| && r[o..o + |xs[k]|] == xs[k] &&
      o + |xs[k]| + |sep| <= |r| && r[o + |xs[k]|..o + |xs[k]| + |sep|] == sep
  {
    var front := xs[..|xs| - 1];
    var jf := Join(front, sep);
    assert Join(xs, sep) == jf + sep + xs[|xs| - 1];
    StartOfPrefix(front, xs, sep, k);
    if k == |xs| - 2 {
      JoinEndsBeforeLast(xs, sep);
    }
    PieceInFront(jf, sep, xs[|xs| - 1], Start(xs, sep, k), xs[k], k < |xs| - 2);
  }

  /** The join of all pieces but the last ends where the last but one piece ends. */
  lemma JoinEndsBeforeLast(xs: seq<string>, sep: string)
    requires 1 < |xs|
    ensures |Join(xs[..|xs| - 1], sep)| == Start(xs, sep, |xs| - 2) + |xs[|xs| - 2]|
  {
    var front := xs[..|xs| - 1];
    JoinLength(front, sep);
    StartOfPrefix(front, xs, sep, |front|);
  }

  /** The last piece follows the join of the others and one separator. */
  lemma JoinPlacementLast(xs: seq<string>, sep: string)
    requires 1 < |xs|
    ensures var r, o, last := Join(xs, sep), Start(xs, sep, |xs| - 1), xs[|xs| - 1];
      o + |last| <= |r| && r[o..o + |last|] == last
  {
    var front := xs[..|xs| - 1];
    var jf := Join(front, sep);
    assert Join(xs, sep) == jf + sep + xs[|xs| - 1];
    JoinLength(front, sep);
    StartOfPrefix(front, xs, sep, |front|);
    PieceAfter(jf, sep, xs[|xs| - 1]);
  }

  /**
   * A piece found at `o` in `jf`, followed there by `sep` or ending `jf`, is in the
   * same place in `jf + sep + last`, and followed by `sep`.
   */
  lemma PieceInFront(jf: string, sep: string, last: string, o: nat, p: string, inside: bool)
    requires o + |p| <= |jf| && jf[o..o + |p|] == p
    requires inside ==> o + |p| + |sep| <= |jf| && jf[o + |p|..o + |p| + |sep|] == sep
    requires !inside ==> o + |p| == |jf|
    ensures var r := jf + sep + last;
      o + |p| + |sep| <= |r| && r[o..o + |p|] == p && r[o + |p|..o + |p| + |sep|] == sep
  {
    var r := jf + sep + last;
    assert r[o..o + |p|] == jf[o..o + |p|];
    if inside {
      assert r[o + |p|..o + |p| + |sep|] == jf[o + |p|..o + |p| + |sep|];
    } else {
      assert r[|jf|..|jf| + |sep|] == sep;
    }
  }

  /** The last piece right after `jf` and a separator. */
  lemma PieceAfter(jf: string, sep: string, last: string)
    ensures (jf + sep + last)[|jf| + |sep|..|jf| + |sep| + |last|] == last
  {
  }

  /**
   * In `s`, piece `k` of `xs` starts after the earlier pieces, each with a separator
   * after it, and is followed by the one-character separator `sep` unless it is the last.
   */
  predicate PieceAt(s: string, xs: seq<string>, sep: string, k: nat)
    requires k < |xs| && |sep| == 1
  {
    var o := Start(xs, sep, k);
    o + |xs[k]| <= |s| && s[o..o + |xs[k]|] == xs[k] &&
    (k < |xs| - 1 ==> o + |xs[k]| < |s| && s[o + |xs[k]|] == sep[0])
  }

  /** Every piece of a join with a one-character separator is in its place. */
  lemma JoinedPieceAt(s: string, xs: seq<string>, sep: string, k: nat)
    requires s == Join(xs, sep) && k < |xs| && |sep| == 1
    ensures PieceAt(s, xs, sep, k)
  {
    JoinPlacement(xs, sep, k);
    if k < |xs| - 1 {
      var e := Start(xs, sep, k) + |xs[k]|;
      assert s[e..e + 1][0] == s[e];
    }
  }

  /** A join closes with its last piece. */
  lemma JoinEndsWithLast(xs: seq<string>, sep: string)
    requires xs != []
    ensures var r, last := Join(xs, sep), xs[|xs| - 1];
      |last| <= |r| && r[|r| - |last|..] == last
  {
    JoinLength(xs, sep);
    JoinPlacement(xs, sep, |xs| - 1);
  }

  /** Python's `str.lower()` on one character, for the ASCII letters. */
  function LowerChar(c: char): (r: char)
    ensures 'A' <= c <= 'Z' ==> r as int == c as int + 32
    ensures !('A' <= c <= 'Z') ==> r == c
  {
    if 'A' <= c <= 'Z' then (c as int + 32) as char else c
  }

  /** Python's `s.lower()`, letter by letter. */
  function Lower(s: string): (r: string)
    ensures |r| == |s|
    ensures forall i :: 0 <= i < |s| ==> r[i] == LowerChar(s[i])
  {
    if s == [] then [] else [LowerChar(s[0])] + Lower(s[1..])
  }

  /** Lower-casing twice changes nothing more than lower-casing once. */
  lemma LowerIdempotent(s: string)
    ensures Lower(Lower(s)) == Lower(s)
  {
    assert forall i :: 0 <= i < |s| ==> Lower(Lower(s))[i] == Lower(s)[i];
  }

  /** The decimal digit for `d < 10`. */
  function DigitChar(d: nat): (c: char)
    requires d < 10
    ensures IsDigit(c) && DigitValue(c) == d
  {
    ('0' as int + d) as char
  }

  /** Python's `f"{n}"` for a natural number: its decimal numeral. */
  function NatToString(n: nat): (r: string)
    ensures |r| >= 1
    ensures forall i :: 0 <= i < |r| ==> IsDigit(r[i])
    ensures |r| > 1 ==> r[0] != '0'
  {
    if n < 10 then [DigitChar(n)] else NatToString(n / 10) + [DigitChar(n % 10)]
  }

  function DigitValue(c: char): (d: nat)
    requires IsDigit(c)
    ensures d < 10
  {
    c as int - '0' as int
  }

  /** The value of a string of decimal digits. */
  function DecimalValue(s: string): nat
    requires forall i :: 0 <= i < |s| ==> IsDigit(s[i])
  {
    if s == [] then 0
    else 10 * DecimalValue(s[..|s| - 1]) + DigitValue(s[|s| - 1])
  }

  /** The numeral of `n` reads back as `n`: distinct numbers are printed differently. */
  lemma {:induction false} NatToStringRoundTrip(n: nat)
    ensures DecimalValue(NatToString(n)) == n
  {
    if n >= 10 {
      NatToStringRoundTrip(n / 10);
      var r := NatToString(n);
      assert r[..|r| - 1] == NatToString(n / 10);
    }
  }

  /** Distinct numbers have distinct numerals. */
  lemma NatToStringInjective(m: nat, n: nat)
    requires m != n
    ensures NatToString(m) != NatToString(n)
  {
    NatToStringRoundTrip(m);
    NatToStringRoundTrip(n);
  }
}
