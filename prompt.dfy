/**
 * Prompt assembly of `openai_generate_answer`: a fixed preamble with the question,
 * the retrieved excerpts numbered from 1 in retrieval order, and a fixed answer
 * structure. query-using-html.py, query-using-xml.py and backend.py show each
 * excerpt with its reference (or `No reference available`); query-improved.py
 * uses an accountant preamble and shows the excerpt text only.
 */
module Prompt {
  import opened Wrappers
  import opened Strings
  import opened Aligner

  /** What `metadata.get('reference', ...)` falls back to. */
  const NoReference: string := "No reference available"

  /** `excerpt.metadata.get('reference', 'No reference available')`. */
  function DisplayedReference(reference: Option<string>): (r: string)
    ensures reference.Some? ==> r == reference.value
    ensures reference.None? ==> r == NoReference
  {
    reference.GetOr(NoReference)
  }

  /**
   * A prompt layout: the preamble before the question, the answer structure after the
   * excerpts, and whether each excerpt shows its reference.
   */
  datatype Layout = Layout(preamble: string, footer: string, showReference: bool)

  /** The layout of query-using-html.py, query-using-xml.py and backend.py. */
  const ReferencedLayout: Layout := Layout(
    "Provide a detailed answer to the following question based on the given excerpts. "
    + "Focus on accuracy and relevant information. "
    + "If the information is incomplete, clearly state what additional details are needed. "
    + "Include a relevant example if possible.\n\n",
    "Provide your answer in the following structure:\n"
    + "1. Direct Answer\n"
    + "2. Explanation\n"
    + "3. Relevant Example (if applicable)\n"
    + "4. Additional Information (if applicable)\n"
    + "5. References (cite the relevant excerpt references)\n",
    true)

  /** The accountant layout of query-improved.py. */
  const AccountantLayout: Layout := Layout(
    "As an expert accountant, provide a precise and detailed answer to the following question based on the given excerpts. "
    + "Focus on accuracy, relevant financial regulations, and practical implications. "
    + "Include specific references to sections or paragraphs when applicable. "
    + "If the information is incomplete, clearly state what additional details are needed.\n\n",
    "Provide your answer in the following structure:\n"
    + "1. Direct Answer\n"
    + "2. Explanation\n"
    + "3. Relevant Regulations or Sections\n"
    + "4. Practical Implications\n"
    + "5. Additional Information Needed (if applicable)\n",
    false)

  /** The preamble and `Question: `, which the question follows. */
  function Lead(layout: Layout): string {
    layout.preamble + "Question: "
  }

  /** What follows the question. */
  const HeaderEnd: string := "\n\n" + "Excerpts:\n"

  /** The opening of the prompt: the preamble, the question and the `Excerpts:` line. */
  function Header(layout: Layout, query: string): string {
    Lead(layout) + query + HeaderEnd
  }

  /** The word each entry starts with. */
  const ExcerptWord: string := "Excerpt "

  /** What follows the number of an entry: the reference part, if any, and the excerpt text. */
  function Tail(layout: Layout, excerpt: Record): string {
    var reference := if layout.showReference then " (Reference: " + DisplayedReference(excerpt.reference) + ")" else "";
    reference + ":\n" + excerpt.content + "\n\n"
  }

  /**
   * The f-string one loop iteration appends for excerpt number `i`:
   * `Excerpt {i} (Reference: {reference}):\n{content}\n\n`, or `Excerpt {i}:\n{content}\n\n`.
   */
  function Entry(layout: Layout, i: nat, excerpt: Record): (e: string)
    ensures |e| > |ExcerptWord| && e[..|ExcerptWord|] == ExcerptWord && IsDigit(e[|ExcerptWord|])
  {
    ExcerptWord + NatToString(i) + Tail(layout, excerpt)
  }

  /** The entries of `excerpts`, numbered from 1; empty exactly when there are no excerpts. */
  function Listing(layout: Layout, excerpts: seq<Record>): (r: string)
    ensures r == "" <==> excerpts == []
  {
    if excerpts == [] then ""
    else Listing(layout, excerpts[..|excerpts| - 1]) + Entry(layout, |excerpts|, excerpts[|excerpts| - 1])
  }

  /**
   * The whole prompt. Where the question, each entry and the answer structure sit in it
   * is stated by `QueryPosition`, `EntryPosition` and `EndsWithFooter` below.
   */
  function PromptText(layout: Layout, excerpts: seq<Record>, query: string): string {
    Header(layout, query) + Listing(layout, excerpts) + layout.footer
  }

  /** The prompt-building part of `openai_generate_answer`: a header, one `+=` per excerpt, then the footer. */
  method BuildPrompt(layout: Layout, excerpts: seq<Record>, query: string) returns (prompt: string)
    ensures prompt == PromptText(layout, excerpts, query)
  {
    prompt := Header(layout, query);
    for i := 1 to |excerpts| + 1
      invariant prompt == Header(layout, query) + Listing(layout, excerpts[..i - 1])
    {
      var excerpt := excerpts[i - 1];
      prompt := prompt + Entry(layout, i, excerpt);
      ListingSnoc(layout, excerpts, i);
      AppendAssoc(Header(layout, query), Listing(layout, excerpts[..i - 1]), Entry(layout, i, excerpt));
    }
    assert excerpts[..|excerpts|] == excerpts;
    prompt := prompt + layout.footer;
  }

  /**
   * An entry is `Excerpt {i} (Reference: {reference}):\n{content}\n\n` when the layout
   * shows references and `Excerpt {i}:\n{content}\n\n` otherwise; it ends with the
   * excerpt text and a blank line.
   */
  lemma EntryText(layout: Layout, i: nat, excerpt: Record)
    ensures layout.showReference ==>
      Entry(layout, i, excerpt) ==
        "Excerpt " + NatToString(i) + " (Reference: " + DisplayedReference(excerpt.reference) + "):\n" + excerpt.content + "\n\n"
    ensures !layout.showReference ==>
      Entry(layout, i, excerpt) == "Excerpt " + NatToString(i) + ":\n" + excerpt.content + "\n\n"
    ensures var e := Entry(layout, i, excerpt);
      |excerpt.content| + 2 <= |e| && e[|e| - |excerpt.content| - 2..] == excerpt.content + "\n\n"
  {
  }

  /** One more entry at the end of the listing. */
  lemma ListingSnoc(layout: Layout, excerpts: seq<Record>, i: nat)
    requires 1 <= i <= |excerpts|
    ensures Listing(layout, excerpts[..i]) == Listing(layout, excerpts[..i - 1]) + Entry(layout, i, excerpts[i - 1])
  {
    assert excerpts[..i][..i - 1] == excerpts[..i - 1];
  }

  // ---------------------------------------------------------------------------
  // Where things sit in the prompt

  /** The listing of a prefix of the excerpts is a prefix of the whole listing. */
  lemma {:induction false} ListingPrefix(layout: Layout, excerpts: seq<Record>, n: nat)
    requires n <= |excerpts|
    ensures var p := Listing(layout, excerpts[..n]);
      |p| <= |Listing(layout, excerpts)| && Listing(layout, excerpts)[..|p|] == p
    decreases |excerpts| - n
  {
    if n < |excerpts| {
      ListingPrefix(layout, excerpts, n + 1);
      ListingSnoc(layout, excerpts, n + 1);
      PrefixOfPrefix(Listing(layout, excerpts[..n]), Entry(layout, n + 1, excerpts[n]),
                     Listing(layout, excerpts[..n + 1]), Listing(layout, excerpts));
    } else {
      assert excerpts[..n] == excerpts;
    }
  }

  lemma PrefixOfPrefix(p: string, e: string, q: string, all: string)
    requires q == p + e && |q| <= |all| && all[..|q|] == q
    ensures |p| <= |all| && all[..|p|] == p
  {
    assert all[..|p|] == q[..|p|];
  }

  /**
   * Excerpt `i` (counting from 0) appears as entry number `i + 1`, right after the
   * header and the entries of the excerpts before it.
   */
  lemma EntryPosition(layout: Layout, excerpts: seq<Record>, query: string, i: nat)
    requires i < |excerpts|
    ensures OccursAt(Entry(layout, i + 1, excerpts[i]), PromptText(layout, excerpts, query),
                     |Header(layout, query)| + |Listing(layout, excerpts[..i])|)
  {
    ListingSnoc(layout, excerpts, i + 1);
    ListingPrefix(layout, excerpts, i + 1);
    PartOfMiddle(Header(layout, query), Listing(layout, excerpts[..i]), Entry(layout, i + 1, excerpts[i]),
                 Listing(layout, excerpts), layout.footer);
  }

  /** If `all` starts with `before + e`, then `e` sits in `h + all + f` right after `h + before`. */
  lemma PartOfMiddle(h: string, before: string, e: string, all: string, f: string)
    requires |before + e| <= |all| && all[..|before + e|] == before + e
    ensures OccursAt(e, h + all + f, |h| + |before|)
  {
    var p := h + all + f;
    var k := |h| + |before|;
    assert p[k..k + |e|] == all[|before|..|before| + |e|] == (before + e)[|before|..];
  }

  /** Entries come in retrieval order: the entry of an earlier excerpt starts before that of a later one. */
  lemma {:induction false} EntriesInOrder(layout: Layout, excerpts: seq<Record>, i: nat, j: nat)
    requires i < j <= |excerpts|
    ensures |Listing(layout, excerpts[..i])| < |Listing(layout, excerpts[..j])|
    decreases j
  {
    ListingSnoc(layout, excerpts, j);
    if i < j - 1 {
      EntriesInOrder(layout, excerpts, i, j - 1);
    }
  }

  /** The question appears right after the preamble and `Question: `. */
  lemma QueryPosition(layout: Layout, excerpts: seq<Record>, query: string)
    ensures OccursAt(query, PromptText(layout, excerpts, query), |Lead(layout)|)
  {
    Middle(Lead(layout), query, HeaderEnd, Listing(layout, excerpts), layout.footer);
  }

  lemma Middle(a: string, q: string, b: string, c: string, d: string)
    ensures OccursAt(q, a + q + b + c + d, |a|)
  {
    assert (a + q + b + c + d)[|a|..|a| + |q|] == q;
  }

  /** The prompt ends with the fixed answer structure. */
  lemma EndsWithFooter(layout: Layout, excerpts: seq<Record>, query: string)
    ensures var p := PromptText(layout, excerpts, query);
      |layout.footer| <= |p| && p[|p| - |layout.footer|..] == layout.footer
  {
  }

  /** The run of digits a string starts with. */
  function DigitPrefix(s: string): (d: string)
    ensures |d| <= |s| && forall k :: 0 <= k < |d| ==> IsDigit(d[k])
  {
    if s != [] && IsDigit(s[0]) then [s[0]] + DigitPrefix(s[1..]) else []
  }

  /** The number an entry starts with, read back from its text. */
  function EntryNumber(e: string): nat {
    if |e| < |ExcerptWord| then 0 else DecimalValue(DigitPrefix(e[|ExcerptWord|..]))
  }

  /** The number written in an entry reads back as that entry's position. */
  lemma EntryNumberRoundTrip(layout: Layout, i: nat, excerpt: Record)
    ensures EntryNumber(Entry(layout, i, excerpt)) == i
  {
    var digits := NatToString(i);
    var tail := Tail(layout, excerpt);
    assert tail[0] == ' ' || tail[0] == ':';
    Suffix(ExcerptWord, digits, tail);
    DigitPrefixOf(digits, tail);
    NatToStringRoundTrip(i);
  }

  lemma Suffix(a: string, b: string, c: string)
    ensures (a + b + c)[|a|..] == b + c
  {
  }

  lemma {:induction false} DigitPrefixOf(d: string, t: string)
    requires forall k :: 0 <= k < |d| ==> IsDigit(d[k])
    requires t == [] || !IsDigit(t[0])
    ensures DigitPrefix(d + t) == d
  {
    if d != [] {
      assert (d + t)[1..] == d[1..] + t;
      DigitPrefixOf(d[1..], t);
    }
  }

  /** The entries of two different excerpts carry different numbers. */
  lemma EntryNumbersDistinct(layout: Layout, i: nat, j: nat, x: Record, y: Record)
    requires i != j
    ensures Entry(layout, i, x) != Entry(layout, j, y)
  {
    EntryNumberRoundTrip(layout, i, x);
    EntryNumberRoundTrip(layout, j, y);
  }
}
