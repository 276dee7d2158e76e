/**
 * The heading reference table of `process_html_file` (query-using-html.py and
 * backend.py): every h1–h6 element of the page, in document order, stores
 * `stripped text -> tag name + " " + stripped text` in a dict, so a repeated
 * heading text keeps its first position and takes the value of its last heading.
 */
module HtmlHeadings {
  import opened Wrappers
  import opened Strings
  import opened RefTable

  /** A parsed HTML element: its tag name and `get_text()`. */
  datatype Node = Node(name: string, text: string)

  /** The tag names of `soup.find_all(['h1', ..., 'h6'])`. */
  predicate IsHeadingName(name: string) {
    name in ["h1", "h2", "h3", "h4", "h5", "h6"]
  }

  /** `soup.find_all([...])`: the heading elements in document order. */
  function FindHeadings(nodes: seq<Node>): (hs: seq<Node>)
    ensures forall n :: n in hs <==> n in nodes && IsHeadingName(n.name)
    ensures |hs| <= |nodes|
    ensures |nodes| == 1 ==> hs == (if IsHeadingName(nodes[0].name) then nodes else [])
  {
    if nodes == [] then []
    else
      var front := FindHeadings(nodes[..|nodes| - 1]);
      var last := nodes[|nodes| - 1];
      if IsHeadingName(last.name) then front + [last] else front
  }

  /**
   * The headings of a page split in two are those of the first part followed by those
   * of the second: document order and repetitions are kept.
   */
  lemma {:induction false} FindHeadingsAppend(a: seq<Node>, b: seq<Node>)
    ensures FindHeadings(a + b) == FindHeadings(a) + FindHeadings(b)
    decreases |b|
  {
    if b == [] {
      assert a + b == a;
    } else {
      var front, last := b[..|b| - 1], b[|b| - 1];
      var h := IsHeadingName(last.name);
      SplitOffLast(a, b);
      calc {
        FindHeadings(a + b);
        FindHeadings((a + front) + [last]);
        { FindHeadingsSnoc(a + front, last); FindHeadingsAppend(a, front); }
        if h then FindHeadings(a) + FindHeadings(front) + [last] else FindHeadings(a) + FindHeadings(front);
        { FindHeadingsSnoc(front, last); }
        FindHeadings(a) + FindHeadings(b);
      }
    }
  }

  lemma SplitOffLast<T>(a: seq<T>, b: seq<T>)
    requires b != []
    ensures b == b[..|b| - 1] + [b[|b| - 1]]
    ensures a + b == (a + b[..|b| - 1]) + [b[|b| - 1]]
  {
    assert b == b[..|b| - 1] + [b[|b| - 1]];
  }

  lemma FindHeadingsSnoc(s: seq<Node>, x: Node)
    ensures FindHeadings(s + [x]) == if IsHeadingName(x.name) then FindHeadings(s) + [x] else FindHeadings(s)
  {
    var sx := s + [x];
    calc {
      FindHeadings(sx);
      if IsHeadingName(sx[|s|].name) then FindHeadings(sx[..|s|]) + [sx[|s|]] else FindHeadings(sx[..|s|]);
      { assert sx[..|s|] == s; }
      if IsHeadingName(x.name) then FindHeadings(s) + [x] else FindHeadings(s);
    }
  }

  /** The dict key of a heading. */
  function KeyOf(h: Node): string {
    Strip(h.text)
  }

  /** The dict value of a heading. */
  function ValueOf(h: Node): (v: string)
    ensures v != []
  {
    h.name + " " + Strip(h.text)
  }

  /** The dict comprehension over the headings, one assignment after another. */
  function HeadingTable(hs: seq<Node>): (r: Table)
    ensures |r| <= |hs|
    ensures r == [] <==> hs == []
  {
    if hs == [] then []
    else
      var last := hs[|hs| - 1];
      Put(HeadingTable(hs[..|hs| - 1]), KeyOf(last), ValueOf(last))
  }

  /** The position of the last heading whose key is `k`. */
  function LastWithKey(hs: seq<Node>, k: string): (r: Option<nat>)
    ensures r.Some? ==> r.value < |hs| && KeyOf(hs[r.value]) == k
    ensures r.Some? ==> forall j :: r.value < j < |hs| ==> KeyOf(hs[j]) != k
    ensures r.None? ==> forall j :: 0 <= j < |hs| ==> KeyOf(hs[j]) != k
  {
    if hs == [] then None
    else if KeyOf(hs[|hs| - 1]) == k then Some(|hs| - 1)
    else LastWithKey(hs[..|hs| - 1], k)
  }

  function KeysOf(hs: seq<Node>): (ks: seq<string>)
    ensures |ks| == |hs| && forall i :: 0 <= i < |hs| ==> ks[i] == KeyOf(hs[i])
  {
    if hs == [] then [] else KeysOf(hs[..|hs| - 1]) + [KeyOf(hs[|hs| - 1])]
  }

  /**
   * `process_html_file` of query-using-html.py: `page` is the parsed page (its elements
   * and the plain text `html2text` produces), `None` when reading or parsing raised,
   * which yields `("", {})`.
   */
  function ProcessHtmlPage(page: Option<(seq<Node>, string)>): (r: (string, Table))
    ensures page.None? ==> r == ("", [])
    ensures page.Some? ==>
      r.0 == page.value.1 && DistinctKeys(r.1) &&
      Keys(r.1) == FirstOccurrences(KeysOf(FindHeadings(page.value.0)))
    ensures page.Some? ==> r.1 == HeadingTable(FindHeadings(page.value.0))
  {
    match page
    case None => ("", [])
    case Some((nodes, plainText)) =>
      HeadingTableDistinct(FindHeadings(nodes));
      HeadingTableKeyOrder(FindHeadings(nodes));
      (plainText, HeadingTable(FindHeadings(nodes)))
  }

  // ---------------------------------------------------------------------------
  // What the table holds

  /**
   * Looking up `k` finds the value of the last heading whose stripped text is `k`,
   * and nothing when no heading has that text: last write wins.
   */
  lemma {:induction false} HeadingTableGet(hs: seq<Node>, k: string)
    ensures Get(HeadingTable(hs), k) ==
      match LastWithKey(hs, k)
      case None => None
      case Some(i) => Some(ValueOf(hs[i]))
  {
    if hs != [] {
      var front, last := hs[..|hs| - 1], hs[|hs| - 1];
      HeadingTableGet(front, k);
      if KeyOf(last) == k {
        assert Get(HeadingTable(hs), k) == Some(ValueOf(last));
      } else {
        assert Get(HeadingTable(hs), k) == Get(HeadingTable(front), k);
        match LastWithKey(front, k)
        case None =>
        case Some(i) => assert hs[i] == front[i];
      }
    }
  }

  /** A key is in the table exactly when some heading has it as stripped text. */
  lemma HeadingTableHasKey(hs: seq<Node>, k: string)
    ensures Get(HeadingTable(hs), k).Some? <==> exists i :: 0 <= i < |hs| && KeyOf(hs[i]) == k
  {
    HeadingTableGet(hs, k);
    if LastWithKey(hs, k).Some? {
      var i := LastWithKey(hs, k).value;
      assert KeyOf(hs[i]) == k;
    }
  }

  /** The table is a dict: every key is stored once. */
  lemma {:induction false} HeadingTableDistinct(hs: seq<Node>)
    ensures DistinctKeys(HeadingTable(hs))
  {
    if hs != [] {
      HeadingTableDistinct(hs[..|hs| - 1]);
    }
  }

  /** The keys keep the order in which their texts first appear among the headings. */
  lemma {:induction false} HeadingTableKeyOrder(hs: seq<Node>)
    ensures Keys(HeadingTable(hs)) == FirstOccurrences(KeysOf(hs))
  {
    if hs != [] {
      var front := hs[..|hs| - 1];
      HeadingTableKeyOrder(front);
      assert KeysOf(hs)[..|hs| - 1] == KeysOf(front);
    }
  }

  /** Every value is non-empty (it starts with the tag name and a space), so it is truthy. */
  lemma {:induction false} HeadingTableValuesNonEmpty(hs: seq<Node>)
    ensures forall i :: 0 <= i < |HeadingTable(hs)| ==> HeadingTable(hs)[i].1 != []
  {
    if hs != [] {
      HeadingTableValuesNonEmpty(hs[..|hs| - 1]);
    }
  }

  /** Every value starts with `h`, the first letter of the tag names `h1`–`h6`. */
  lemma {:induction false} HeadingTableValuesStartWithH(hs: seq<Node>)
    requires forall j :: 0 <= j < |hs| ==> IsHeadingName(hs[j].name)
    ensures forall i :: 0 <= i < |HeadingTable(hs)| ==> HeadingTable(hs)[i].1 != [] && HeadingTable(hs)[i].1[0] == 'h'
  {
    if hs != [] {
      HeadingTableValuesStartWithH(hs[..|hs| - 1]);
      ValueStartsWithH(hs[|hs| - 1]);
    }
  }

  lemma ValueStartsWithH(h: Node)
    requires IsHeadingName(h.name)
    ensures ValueOf(h)[0] == 'h'
  {
    assert h.name[0] == 'h';
  }
}
