/**
 * `extract_section_numbers` of query-improved.py: `re.findall` of the pattern
 * `section (\d+(\.\d+)*)` over the lower-cased text, written out as a scanner.
 * A match is the word `section`, one space and a section number (digits, then any
 * number of `.digits` groups, taken greedily); the scan goes left to right, and
 * after a match it resumes where the match ended. Each match yields the pair
 * (the whole number, the last `.digits` group or `""` when there is none).
 */
module SectionNumbers {
  import opened Wrappers
  import opened Strings

  /** The literal part of the pattern. */
  const Keyword: string := "section "

  /** The pattern matches at `i`: the keyword, then a digit. */
  predicate MatchesAt(s: string, i: nat) {
    i + |Keyword| < |s| && s[i..i + |Keyword|] == Keyword && IsDigit(s[i + |Keyword|])
  }

  /** The end of the run of digits starting at `i` (greedy `\d*`). */
  function DigitsEnd(s: string, i: nat): (e: nat)
    requires i <= |s|
    ensures i <= e <= |s|
    ensures forall k :: i <= k < e ==> IsDigit(s[k])
    ensures e == |s| || !IsDigit(s[e])
    decreases |s| - i
  {
    if i < |s| && IsDigit(s[i]) then DigitsEnd(s, i + 1) else i
  }

  /** One more `\.\d+` group can start at `e`. */
  predicate GroupAt(s: string, e: nat) {
    e + 1 < |s| && s[e] == '.' && IsDigit(s[e + 1])
  }

  /**
   * The greedy `(\.\d+)*` from `e`: its end and the start of its last group,
   * `lastDot` when no further group is taken.
   */
  function Groups(s: string, e: nat, lastDot: Option<nat>): (r: (nat, Option<nat>))
    requires e <= |s|
    ensures e <= r.0 <= |s|
    ensures r.1 == lastDot || (r.1.Some? && e <= r.1.value < r.0)
    decreases |s| - e
  {
    if GroupAt(s, e) then Groups(s, DigitsEnd(s, e + 1), Some(e)) else (e, lastDot)
  }

  /** A match: the position of `section`, the end of the number and the start of its last group. */
  datatype Hit = Hit(start: nat, end: nat, lastDot: Option<nat>)

  /** The match at `i`, which `MatchesAt(s, i)` guarantees. */
  function MatchAt(s: string, i: nat): (h: Hit)
    requires MatchesAt(s, i)
    ensures h.start == i && i + |Keyword| < h.end <= |s|
    ensures h.lastDot.Some? ==> i + |Keyword| <= h.lastDot.value < h.end
  {
    var r := Groups(s, DigitsEnd(s, i + |Keyword|), None);
    Hit(i, r.0, r.1)
  }

  /** `findall`'s scan from position `i`. */
  function Scan(s: string, i: nat): (hs: seq<Hit>)
    requires i <= |s|
    ensures forall k :: 0 <= k < |hs| ==> i <= hs[k].start && hs[k].start + |Keyword| < hs[k].end <= |s|
    ensures forall k :: 0 <= k < |hs| && hs[k].lastDot.Some? ==> hs[k].lastDot.value < hs[k].end
    decreases |s| - i
  {
    if i == |s| then []
    else if MatchesAt(s, i) then
      var h := MatchAt(s, i);
      [h] + Scan(s, h.end)
    else Scan(s, i + 1)
  }

  /** The two groups of a match: the number and its last `.digits` group. */
  function Captures(s: string, h: Hit): (string, string)
    requires h.start + |Keyword| <= h.end <= |s|
    requires h.lastDot.Some? ==> h.lastDot.value <= h.end
  {
    (s[h.start + |Keyword|..h.end], if h.lastDot.Some? then s[h.lastDot.value..h.end] else "")
  }

  /** `extract_section_numbers(text)`: every pair is a number and its last group, as `PairShape` says. */
  function ExtractSectionNumbers(text: string): (r: seq<(string, string)>)
    ensures forall k :: 0 <= k < |r| ==> PairShape(r[k])
  {
    var s := Lower(text);
    var hs := Scan(s, 0);
    ScanSound(s, 0);
    AllCapturesShaped(s, hs);
    seq(|hs|, k requires 0 <= k < |hs| => Captures(s, hs[k]))
  }

  /**
   * A pair of `findall`: the number starts and ends with a digit, and the second group
   * is `""` or a `.digits` group that ends the number.
   */
  predicate PairShape(p: (string, string)) {
    var (number, last) := p;
    number != "" && IsDigit(number[0]) && IsDigit(number[|number| - 1]) &&
    |last| <= |number| && number[|number| - |last|..] == last &&
    (last == "" || (|last| >= 2 && last[0] == '.' && IsDigit(last[1])))
  }

  lemma CapturesShaped(s: string, h: Hit)
    requires ValidHit(s, h)
    ensures PairShape(Captures(s, h))
  {
    var a := h.start + |Keyword|;
    if h.lastDot.Some? {
      var d := h.lastDot.value;
      assert s[a..h.end][d - a..] == s[d..h.end];
      assert s[d..h.end][1] == s[d + 1];
    }
  }

  lemma AllCapturesShaped(s: string, hs: seq<Hit>)
    requires SoundHits(s, 0, hs)
    ensures forall k :: 0 <= k < |hs| ==> PairShape(Captures(s, hs[k]))
  {
    forall k | 0 <= k < |hs|
      ensures PairShape(Captures(s, hs[k]))
    {
      CapturesShaped(s, hs[k]);
    }
  }

  // ---------------------------------------------------------------------------
  // What a match is, independently of the scanner

  /** `s[a..e]` is in the language `\d+(\.\d+)*`. */
  predicate IsNumber(s: string, a: nat, e: nat)
    requires a <= e <= |s|
  {
    a < e && IsDigit(s[a]) && IsDigit(s[e - 1]) &&
    (forall k :: a <= k < e ==> IsDigit(s[k]) || s[k] == '.') &&
    (forall k :: a <= k < e - 1 && s[k] == '.' ==> IsDigit(s[k + 1]))
  }

  /** The number cannot be extended: neither a digit nor a `.digit` follows. */
  predicate Maximal(s: string, e: nat)
    requires e <= |s|
  {
    e == |s| || (!IsDigit(s[e]) && !GroupAt(s, e))
  }

  /** `g` is where the last `.` of `s[a..e]` sits, or there is no `.` when `g` is `None`. */
  predicate LastDotOf(s: string, a: nat, e: nat, g: Option<nat>)
    requires a <= e <= |s|
  {
    match g
    case None => forall k :: a <= k < e ==> s[k] != '.'
    case Some(d) => a < d < e && s[d] == '.' && forall k :: d < k < e ==> s[k] != '.'
  }

  /** A match in the sense of the pattern. */
  predicate ValidHit(s: string, h: Hit) {
    MatchesAt(s, h.start) && h.start + |Keyword| < h.end <= |s| &&
    IsNumber(s, h.start + |Keyword|, h.end) && Maximal(s, h.end) &&
    LastDotOf(s, h.start + |Keyword|, h.end, h.lastDot)
  }

  // ---------------------------------------------------------------------------
  // The scanner finds exactly the matches

  /** Taking the groups keeps a number a number, and ends where it cannot be extended. */
  lemma {:induction false} GroupsSpec(s: string, a: nat, e: nat, lastDot: Option<nat>)
    requires a <= e <= |s| && IsNumber(s, a, e) && LastDotOf(s, a, e, lastDot)
    requires e == |s| || !IsDigit(s[e])
    ensures var r := Groups(s, e, lastDot);
      IsNumber(s, a, r.0) && Maximal(s, r.0) && LastDotOf(s, a, r.0, r.1)
    decreases |s| - e
  {
    if GroupAt(s, e) {
      var d := DigitsEnd(s, e + 1);
      assert IsNumber(s, a, d);
      assert LastDotOf(s, a, d, Some(e));
      GroupsSpec(s, a, d, Some(e));
    }
  }

  /** The match built at a matching position is a match in the sense of the pattern. */
  lemma MatchAtValid(s: string, i: nat)
    requires MatchesAt(s, i)
    ensures ValidHit(s, MatchAt(s, i))
  {
    var a := i + |Keyword|;
    var e := DigitsEnd(s, a);
    assert IsNumber(s, a, e);
    GroupsSpec(s, a, e, None);
  }

  /** Every hit is a match starting at or after `i`, and the hits come left to right without overlap. */
  predicate SoundHits(s: string, i: nat, hs: seq<Hit>) {
    (forall k :: 0 <= k < |hs| ==> ValidHit(s, hs[k]) && i <= hs[k].start) &&
    (forall k :: 0 <= k < |hs| - 1 ==> hs[k].end <= hs[k + 1].start)
  }

  /** Every match the scan reports is a match, they come left to right and do not overlap. */
  lemma {:induction false} ScanSound(s: string, i: nat)
    requires i <= |s|
    ensures SoundHits(s, i, Scan(s, i))
    decreases |s| - i
  {
    if i < |s| {
      if MatchesAt(s, i) {
        ScanSound(s, MatchAt(s, i).end);
        TakenSound(s, i);
      } else {
        ScanSound(s, i + 1);
        SkippedSound(s, i);
      }
    }
  }

  lemma TakenSound(s: string, i: nat)
    requires MatchesAt(s, i) && SoundHits(s, MatchAt(s, i).end, Scan(s, MatchAt(s, i).end))
    ensures SoundHits(s, i, Scan(s, i))
  {
    MatchAtValid(s, i);
    ScanTaken(s, i);
    SoundCons(s, i, MatchAt(s, i), Scan(s, MatchAt(s, i).end));
  }

  lemma SkippedSound(s: string, i: nat)
    requires i < |s| && !MatchesAt(s, i) && SoundHits(s, i + 1, Scan(s, i + 1))
    ensures SoundHits(s, i, Scan(s, i))
  {
    ScanSkipped(s, i);
  }

  lemma SoundCons(s: string, i: nat, h: Hit, rest: seq<Hit>)
    requires ValidHit(s, h) && i <= h.start && SoundHits(s, h.end, rest)
    ensures SoundHits(s, i, [h] + rest)
  {
    var hs := [h] + rest;
    forall k | 0 <= k < |hs| ensures ValidHit(s, hs[k]) && i <= hs[k].start {
      if k > 0 {
        assert hs[k] == rest[k - 1];
        assert h.start < h.end;
      }
    }
    forall k | 0 <= k < |hs| - 1 ensures hs[k].end <= hs[k + 1].start {
      if k > 0 {
        assert hs[k] == rest[k - 1] && hs[k + 1] == rest[k];
      }
    }
  }

  /** The keyword cannot start again inside a match, so matches never overlap in the text. */
  lemma NoMatchInside(s: string, i: nat, j: nat)
    requires MatchesAt(s, i) && i < j < MatchAt(s, i).end
    ensures !MatchesAt(s, j)
  {
    MatchAtValid(s, i);
    var a := i + |Keyword|;
    if j < a {
      assert s[i..a][j - i] == s[j];
      assert s[j] != 's';
    } else {
      assert IsDigit(s[j]) || s[j] == '.';
    }
    StartsWithS(s, j);
  }

  lemma StartsWithS(s: string, j: nat)
    ensures MatchesAt(s, j) ==> s[j] == 's'
  {
    if MatchesAt(s, j) {
      assert s[j..j + |Keyword|][0] == s[j];
    }
  }

  /** Some match of `hs` starts at `j`. */
  predicate StartsAt(hs: seq<Hit>, j: nat) {
    exists k :: 0 <= k < |hs| && hs[k].start == j
  }

  /** Every position where the pattern matches is the start of a reported match. */
  lemma {:induction false} ScanComplete(s: string, i: nat, j: nat)
    requires i <= j <= |s| && MatchesAt(s, j)
    ensures StartsAt(Scan(s, i), j)
    decreases |s| - i
  {
    if MatchesAt(s, i) {
      var h := MatchAt(s, i);
      ScanTaken(s, i);
      if i == j {
        assert ([h] + Scan(s, h.end))[0].start == j;
      } else {
        if j < h.end {
          NoMatchInside(s, i, j);
        }
        ScanComplete(s, h.end, j);
        StartsAtCons(h, Scan(s, h.end), j);
      }
    } else {
      ScanSkipped(s, i);
      ScanComplete(s, i + 1, j);
    }
  }

  lemma ScanTaken(s: string, i: nat)
    requires MatchesAt(s, i)
    ensures Scan(s, i) == [MatchAt(s, i)] + Scan(s, MatchAt(s, i).end)
  {
  }

  lemma ScanSkipped(s: string, i: nat)
    requires i < |s| && !MatchesAt(s, i)
    ensures Scan(s, i) == Scan(s, i + 1)
  {
  }

  lemma StartsAtCons(h: Hit, rest: seq<Hit>, j: nat)
    requires StartsAt(rest, j)
    ensures StartsAt([h] + rest, j)
  {
    var k :| 0 <= k < |rest| && rest[k].start == j;
    assert ([h] + rest)[k + 1] == rest[k];
  }

  // ---------------------------------------------------------------------------
  // The extracted pairs

  /**
   * Each pair is the number of a match and its last `.digits` group (`""` when it has
   * none), and the matches are exactly the positions where the pattern occurs in the
   * lower-cased text.
   */
  lemma ExtractedPairs(text: string)
    ensures var s := Lower(text);
      var hs := Scan(s, 0);
      var r := ExtractSectionNumbers(text);
      |r| == |hs| &&
      (forall k :: 0 <= k < |hs| ==> ValidHit(s, hs[k]) && r[k] == Captures(s, hs[k])) &&
      (forall k :: 0 <= k < |hs| - 1 ==> hs[k].end <= hs[k + 1].start) &&
      (forall j: nat :: MatchesAt(s, j) ==> StartsAt(hs, j))
  {
    var s := Lower(text);
    ScanSound(s, 0);
    forall j: nat | MatchesAt(s, j)
      ensures StartsAt(Scan(s, 0), j)
    {
      ScanComplete(s, 0, j);
    }
  }

  /** Text in which the pattern occurs nowhere yields the empty list, and only such text does. */
  lemma NoneIffNoMatch(text: string)
    ensures ExtractSectionNumbers(text) == [] <==> forall j: nat :: !MatchesAt(Lower(text), j)
  {
    ExtractedPairs(text);
    var s := Lower(text);
    if ExtractSectionNumbers(text) != [] {
      assert MatchesAt(s, Scan(s, 0)[0].start);
    }
  }

  /** Matching ignores case: the text is lower-cased before the scan. */
  lemma CaseInsensitive(text: string)
    ensures ExtractSectionNumbers(Lower(text)) == ExtractSectionNumbers(text)
  {
    LowerIdempotent(text);
  }

  /** No word boundary: `subsection 4` also yields `4`. */
  lemma SubsectionExample(s: string)
    requires s == "subsection 4"
    ensures ExtractSectionNumbers(s) == [("4", "")]
  {
    SubsectionSkip(s);
    SubsectionMatch(s);
    LowerUnchanged(s);
    ExtractOne(s, Hit(3, 12, None));
    assert s[11..12] == "4";
  }

  /** `sub` holds no match: the scan of `subsection 4` starts its search at `section`. */
  lemma SubsectionSkip(s: string)
    requires s == "subsection 4"
    ensures Scan(s, 0) == Scan(s, 3)
  {
    ScanSkipped(s, 0);
    ScanSkipped(s, 1);
    ScanSkipped(s, 2);
  }

  /** A `.` with no digit after it is not part of the number: `section 5.` yields `5`. */
  lemma TrailingDotExample(s: string)
    requires s == "section 5."
    ensures ExtractSectionNumbers(s) == [("5", "")]
  {
    TrailingDotMatch(s);
    LowerUnchanged(s);
    ExtractOne(s, Hit(0, 9, None));
    assert s[8..9] == "5";
  }

  lemma TrailingDotMatch(s: string)
    requires s == "section 5."
    ensures Scan(s, 0) == [Hit(0, 9, None)]
  {
    assert MatchesAt(s, 0);
    ScanTaken(s, 0);
    assert DigitsEnd(s, 8) == 9;
    assert !GroupAt(s, 9);
    ScanSkipped(s, 9);
  }

  /** The number is taken greedily and the second group is its last `.digits`: `section 1.2.3` yields `("1.2.3", ".3")`. */
  lemma GreedyExample(s: string)
    requires s == "section 1.2.3"
    ensures ExtractSectionNumbers(s) == [("1.2.3", ".3")]
  {
    GreedyMatch(s);
    LowerUnchanged(s);
    ExtractOne(s, Hit(0, 13, Some(11)));
    GreedyCaptures(s);
  }

  lemma GreedyCaptures(s: string)
    requires s == "section 1.2.3"
    ensures Captures(s, Hit(0, 13, Some(11))) == ("1.2.3", ".3")
  {
    assert s[8..13] == "1.2.3" && s[11..13] == ".3";
  }

  lemma GreedyMatch(s: string)
    requires s == "section 1.2.3"
    ensures Scan(s, 0) == [Hit(0, 13, Some(11))]
  {
    assert MatchesAt(s, 0);
    ScanTaken(s, 0);
    assert DigitsEnd(s, 8) == 9;
    assert GroupAt(s, 9) && DigitsEnd(s, 10) == 11;
    assert GroupAt(s, 11) && DigitsEnd(s, 12) == 13;
    assert !GroupAt(s, 13);
    assert Groups(s, 13, Some(11)) == (13, Some(11));
    assert Groups(s, 11, Some(9)) == (13, Some(11));
    assert Groups(s, 9, None) == (13, Some(11));
    assert MatchAt(s, 0) == Hit(0, 13, Some(11));
    assert Scan(s, 13) == [];
  }

  lemma ExtractOne(s: string, h: Hit)
    requires Lower(s) == s && Scan(s, 0) == [h]
    requires h.start + |Keyword| <= h.end <= |s| && (h.lastDot.Some? ==> h.lastDot.value <= h.end)
    ensures ExtractSectionNumbers(s) == [Captures(s, h)]
  {
  }

  lemma SubsectionMatch(s: string)
    requires s == "subsection 4"
    ensures Scan(s, 3) == [Hit(3, 12, None)]
  {
    assert MatchesAt(s, 3);
    ScanTaken(s, 3);
  }

  lemma LowerUnchanged(s: string)
    requires forall i :: 0 <= i < |s| ==> !('A' <= s[i] <= 'Z')
    ensures Lower(s) == s
  {
  }
}
