/**
 * The XML flattener of query-using-xml.py (`process_xml_file` and its inner
 * `process_element`): a pre-order walk over an already parsed element tree that
 * collects the text of the recognised elements and a reference table of `Label`s.
 */
module XmlFlatten {
  import opened Wrappers
  import opened Strings
  import opened RefTable

  /**
   * An ElementTree element: its tag, `elem.text` (the text before the first child,
   * `None` when there is none) and its children in document order. The flattener
   * never reads tail text or attributes, so they are not part of the model.
   */
  datatype Element = Element(tag: Tag, text: Option<string>, children: seq<Element>)

  /**
   * An element's tag: one of the ten names the flattener reads, or any other name,
   * whose element only has its children visited.
   */
  datatype Tag =
    | Heading | Section | Subsection | Paragraph | Subparagraph | Clause
    | Label | Text | TitleText | MarginalNote
    | Other(name: OtherName)

  /** The ten tag names of the membership test `elem.tag in [...]`. */
  const RecognisedNames: seq<string> :=
    ["Heading", "Section", "Subsection", "Paragraph", "Subparagraph", "Clause",
     "Label", "Text", "TitleText", "MarginalNote"]

  /**
   * A tag name outside the list, such as `Body` or a namespaced `{uri}Label`, so that
   * every element has exactly one tag.
   */
  type OtherName = name: string | name !in RecognisedNames witness ""

  /** The tag of a parsed element with the given name. */
  function TagOf(name: string): (t: Tag)
    ensures t.Other? <==> name !in RecognisedNames
    ensures t == Label <==> name == "Label"
  {
    match name
    case "Heading" => Heading
    case "Section" => Section
    case "Subsection" => Subsection
    case "Paragraph" => Paragraph
    case "Subparagraph" => Subparagraph
    case "Clause" => Clause
    case "Label" => Label
    case "Text" => Text
    case "TitleText" => TitleText
    case "MarginalNote" => MarginalNote
    case _ => Other(name)
  }

  predicate Recognised(t: Tag) {
    !t.Other?
  }

  /** `elem.text.strip() if elem.text else ""`. */
  function OwnText(e: Element): string {
    match e.text
    case None => ""
    case Some(t) => Strip(t)
  }

  /** What a walk contributes: text fragments in document order, reference keys in the order they are stored. */
  datatype Flat = Flat(texts: seq<string>, labels: seq<string>)

  function Concat(a: Flat, b: Flat): Flat {
    Flat(a.texts + b.texts, a.labels + b.labels)
  }

  /** The reference key of a label: `f"{path}{text}."` with every trailing `.` removed. */
  function LabelKey(path: string, text: string): string {
    RStripDots(path + text + ".")
  }

  /** What element `e` adds by itself, before its children are visited. */
  function Own(e: Element, path: string): Flat {
    var text := OwnText(e);
    if Recognised(e.tag) && text != "" then
      if e.tag == Label then Flat([], [LabelKey(path, text)]) else Flat([path + text], [])
    else Flat([], [])
  }

  /**
   * The path handed to the children of `e`: a `Label` extends it by its raw (unstripped)
   * text and a `.`; `None` when that text is absent, where Python's `path + None` raises.
   */
  function ChildPath(e: Element, path: string): Option<string> {
    if e.tag == Label then
      match e.text
      case None => None
      case Some(t) => Some(path + t + ".")
    else Some(path)
  }

  /**
   * The walk of `process_element(e, path)`; `None` when it raises. It is pre-order:
   * what the element adds itself comes before anything its children add.
   */
  function Walk(e: Element, path: string): (r: Option<Flat>)
    ensures r.Some? ==>
      var own := Own(e, path);
      |own.texts| <= |r.value.texts| && r.value.texts[..|own.texts|] == own.texts &&
      |own.labels| <= |r.value.labels| && r.value.labels[..|own.labels|] == own.labels
    decreases e
  {
    if e.children == [] then Some(Own(e, path))
    else
      match ChildPath(e, path)
      case None => None
      case Some(cp) =>
        match WalkAll(e.children, cp)
        case None => None
        case Some(f) => Some(Concat(Own(e, path), f))
  }

  /**
   * The walks of sibling elements one after the other, all with the same path; the
   * loop gets through exactly when every child's walk does.
   */
  function WalkAll(cs: seq<Element>, path: string): (r: Option<Flat>)
    ensures r.Some? <==> forall i :: 0 <= i < |cs| ==> Walk(cs[i], path).Some?
    decreases cs
  {
    if cs == [] then Some(Flat([], []))
    else
      match WalkAll(cs[..|cs| - 1], path)
      case None => None
      case Some(f) =>
        match Walk(cs[|cs| - 1], path)
        case None => None
        case Some(g) => Some(Concat(f, g))
  }

  /** `reference_dict[key] = key` for each label key in turn. */
  function PutLabels(t: Table, labels: seq<string>): Table
    decreases labels
  {
    if labels == [] then t else PutLabels(Put(t, labels[0], labels[0]), labels[1..])
  }

  /** `process_xml_file` on a parsed document; `None` stands for a parse error. Any exception yields `("", {})`. */
  function Flattened(root: Option<Element>): (r: (string, Table))
    ensures root.None? ==> r == ("", [])
    ensures r != ("", []) ==> root.Some? && Walk(root.value, "").Some?
  {
    match root
    case None => ("", [])
    case Some(r) =>
      match Walk(r, "")
      case None => ("", [])
      case Some(f) => (Join(f.texts, "\n"), PutLabels([], f.labels))
  }

  // ---------------------------------------------------------------------------
  // Independent descriptions of when the walk raises and when it yields text

  /** Somewhere in the tree is a `Label` without text that has children. */
  predicate Fails(e: Element)
    decreases e
  {
    (e.tag == Label && e.text.None? && e.children != []) ||
    exists i :: 0 <= i < |e.children| && Fails(e.children[i])
  }

  /** `e` is a recognised element other than `Label` whose text is not blank. */
  predicate AddsText(e: Element) {
    Recognised(e.tag) && e.tag != Label && OwnText(e) != ""
  }

  /** Some element of the tree adds text. */
  predicate HasContent(e: Element)
    decreases e
  {
    AddsText(e) || exists i :: 0 <= i < |e.children| && HasContent(e.children[i])
  }

  /** The walk raises exactly when the tree holds a text-less `Label` with children. */
  lemma {:induction false} WalkFailsIff(e: Element, path: string)
    ensures Walk(e, path).None? <==> Fails(e)
    decreases e
  {
    if e.children != [] {
      match ChildPath(e, path)
      case None =>
      case Some(cp) => WalkAllFailsIff(e.children, cp);
    }
  }

  lemma {:induction false} WalkAllFailsIff(cs: seq<Element>, path: string)
    ensures WalkAll(cs, path).None? <==> exists i :: 0 <= i < |cs| && Fails(cs[i])
    decreases cs
  {
    if cs != [] {
      var front, last := cs[..|cs| - 1], cs[|cs| - 1];
      assert WalkAll(cs, path).None? <==> WalkAll(front, path).None? || Walk(last, path).None?;
      WalkAllFailsIff(front, path);
      WalkFailsIff(last, path);
      SplitLast(cs, front, Fails);
    }
  }

  /** Every fragment the walk emits is non-empty, and it emits one exactly when the tree has content. */
  lemma {:induction false} WalkTexts(e: Element, path: string)
    requires Walk(e, path).Some?
    ensures forall j :: 0 <= j < |Walk(e, path).value.texts| ==> Walk(e, path).value.texts[j] != ""
    ensures Walk(e, path).value.texts != [] <==> HasContent(e)
    decreases e
  {
    var own := Own(e, path).texts;
    OwnTexts(e, path);
    if e.children == [] {
      assert Walk(e, path).value.texts == own;
      assert HasContent(e) <==> AddsText(e);
    } else {
      var cp := ChildPath(e, path).value;
      var f := WalkAll(e.children, cp).value;
      assert Walk(e, path).value.texts == own + f.texts;
      WalkAllTexts(e.children, cp);
      TextsOfConcat(own, f.texts);
    }
  }

  /** An element adds at most one fragment itself, a non-empty one, and does so exactly when it adds text. */
  lemma OwnTexts(e: Element, path: string)
    ensures |Own(e, path).texts| <= 1
    ensures forall j :: 0 <= j < |Own(e, path).texts| ==> Own(e, path).texts[j] != ""
    ensures Own(e, path).texts != [] <==> AddsText(e)
  {
  }

  lemma TextsOfConcat(a: seq<string>, b: seq<string>)
    requires forall j :: 0 <= j < |a| ==> a[j] != ""
    requires forall j :: 0 <= j < |b| ==> b[j] != ""
    ensures forall j :: 0 <= j < |a + b| ==> (a + b)[j] != ""
    ensures a + b != [] <==> a != [] || b != []
  {
    assert |a + b| == |a| + |b|;
  }

  lemma {:induction false} WalkAllTexts(cs: seq<Element>, path: string)
    requires WalkAll(cs, path).Some?
    ensures forall j :: 0 <= j < |WalkAll(cs, path).value.texts| ==> WalkAll(cs, path).value.texts[j] != ""
    ensures WalkAll(cs, path).value.texts != [] <==> exists i :: 0 <= i < |cs| && HasContent(cs[i])
    decreases cs
  {
    if cs != [] {
      var front, last := cs[..|cs| - 1], cs[|cs| - 1];
      var f, g := WalkAll(front, path).value, Walk(last, path).value;
      assert WalkAll(cs, path).value == Concat(f, g);
      WalkAllTexts(front, path);
      WalkTexts(last, path);
      SplitLast(cs, front, HasContent);
    }
  }

  /** Some element of `cs` satisfies `p` exactly when one before the last does or the last one does. */
  lemma SplitLast(cs: seq<Element>, front: seq<Element>, p: Element -> bool)
    requires cs != [] && front == cs[..|cs| - 1]
    ensures (exists i :: 0 <= i < |cs| && p(cs[i])) <==>
            (exists i :: 0 <= i < |front| && p(front[i])) || p(cs[|cs| - 1])
  {
    if exists i :: 0 <= i < |cs| && p(cs[i]) {
      var i :| 0 <= i < |cs| && p(cs[i]);
      if i < |front| { assert front[i] == cs[i]; }
    }
  }

  // ---------------------------------------------------------------------------
  // The reference table

  lemma {:induction false} PutLabelsAppend(t: Table, a: seq<string>, b: seq<string>)
    ensures PutLabels(t, a + b) == PutLabels(PutLabels(t, a), b)
    decreases a
  {
    if a == [] {
      assert a + b == b;
    } else {
      assert (a + b)[0] == a[0] && (a + b)[1..] == a[1..] + b;
      PutLabelsAppend(Put(t, a[0], a[0]), a[1..], b);
    }
  }

  /** Storing labels keeps the keys distinct and every key mapped to itself. */
  lemma {:induction false} PutLabelsIdentity(t: Table, labels: seq<string>)
    requires DistinctKeys(t) && forall i :: 0 <= i < |t| ==> t[i].0 == t[i].1
    ensures var r := PutLabels(t, labels);
      DistinctKeys(r) && forall i :: 0 <= i < |r| ==> r[i].0 == r[i].1
    decreases labels
  {
    if labels != [] {
      PutLabelsIdentity(Put(t, labels[0], labels[0]), labels[1..]);
    }
  }

  /** Each stored label can be looked up under itself. */
  lemma {:induction false} PutLabelsFinds(t: Table, labels: seq<string>, k: string)
    ensures k in labels ==> Get(PutLabels(t, labels), k) == Some(k)
    ensures k !in labels ==> Get(PutLabels(t, labels), k) == Get(t, k)
    decreases labels
  {
    if labels != [] {
      PutLabelsFinds(Put(t, labels[0], labels[0]), labels[1..], k);
      if k == labels[0] && k !in labels[1..] {
        assert Get(Put(t, k, k), k) == Some(k);
      }
    }
  }

  /** Storing one label is one dict assignment. */
  lemma PutLabelsSnoc(t: Table, front: seq<string>, k: string)
    ensures PutLabels(t, front + [k]) == Put(PutLabels(t, front), k, k)
  {
    PutLabelsAppend(t, front, [k]);
    assert [k][1..] == [];
  }

  /** The keys of the table come in the order their labels are first stored. */
  lemma {:induction false} PutLabelsKeyOrder(labels: seq<string>)
    ensures Keys(PutLabels([], labels)) == FirstOccurrences(labels)
    decreases |labels|
  {
    if labels != [] {
      var front, k := labels[..|labels| - 1], labels[|labels| - 1];
      assert labels == front + [k];
      PutLabelsSnoc([], front, k);
      PutLabelsKeyOrder(front);
    }
  }

  // ---------------------------------------------------------------------------
  // What one element contributes

  /** An unrecognised element adds nothing itself; its children are walked with the same path. */
  lemma UnrecognisedElement(e: Element, path: string)
    requires !Recognised(e.tag)
    ensures Walk(e, path) == WalkAll(e.children, path)
  {
    assert Own(e, path) == Flat([], []);
    NothingOwnPassesThrough(e, path);
  }

  /** A recognised element other than `Label` with blank or absent text adds nothing itself. */
  lemma BlankElement(e: Element, path: string)
    requires e.tag != Label && OwnText(e) == ""
    ensures Walk(e, path) == WalkAll(e.children, path)
  {
    assert Own(e, path) == Flat([], []);
    NothingOwnPassesThrough(e, path);
  }

  lemma NothingOwnPassesThrough(e: Element, path: string)
    requires e.tag != Label && Own(e, path) == Flat([], [])
    ensures Walk(e, path) == WalkAll(e.children, path)
  {
    if e.children != [] {
      assert ChildPath(e, path) == Some(path);
      match WalkAll(e.children, path)
      case None =>
      case Some(f) =>
        assert Concat(Flat([], []), f) == f;
    }
  }

  /**
   * A `Label` with text `t` adds no text, and one reference key when `t` is not
   * blank: its path and stripped text with the trailing full stops removed. Blank
   * or not, its children are walked with the path extended by the raw `t` and a `.`.
   */
  lemma LabelElement(e: Element, path: string, t: string)
    requires e.tag == Label && e.text == Some(t)
    ensures Walk(e, path) ==
      match WalkAll(e.children, path + t + ".")
      case None => None
      case Some(f) => Some(Flat(f.texts, (if Strip(t) != "" then [RStripDots(path + Strip(t))] else []) + f.labels))
  {
    var key := path + Strip(t);
    assert (key + ".")[..|key|] == key;
    assert LabelKey(path, Strip(t)) == RStripDots(key);
    var own := if Strip(t) != "" then [RStripDots(key)] else [];
    assert Own(e, path) == Flat([], own);
    if e.children == [] {
      assert own + [] == own;
    } else {
      assert ChildPath(e, path) == Some(path + t + ".");
      match WalkAll(e.children, path + t + ".")
      case None =>
      case Some(f) =>
        assert [] + f.texts == f.texts;
    }
  }

  /** A recognised element other than `Label` with text adds `path` and its stripped text ahead of its children's fragments. */
  lemma ContentElement(e: Element, path: string)
    requires AddsText(e)
    ensures Walk(e, path) ==
      match WalkAll(e.children, path)
      case None => None
      case Some(f) => Some(Flat([path + OwnText(e)] + f.texts, f.labels))
  {
    var own := [path + OwnText(e)];
    assert Own(e, path) == Flat(own, []);
    if e.children == [] {
      assert own + [] == own;
    } else {
      assert ChildPath(e, path) == Some(path);
      match WalkAll(e.children, path)
      case None =>
      case Some(f) =>
        assert [] + f.labels == f.labels;
    }
  }

  // ---------------------------------------------------------------------------
  // The document as a whole

  /** The flattened text is non-empty exactly when nothing raises and some element adds text. */
  lemma FlattenedTextIff(r: Element)
    ensures Flattened(Some(r)).0 != "" <==> !Fails(r) && HasContent(r)
  {
    WalkFailsIff(r, "");
    if !Fails(r) {
      WalkTexts(r, "");
      JoinEmptyIff(Walk(r, "").value.texts, "\n");
    }
  }

  /**
   * The flattened text is exactly the walk's fragments and one `"\n"` between each
   * two neighbours: as long as that, with fragment `k` at its offset (below).
   */
  lemma FlattenedTextLength(root: Option<Element>, f: Flat)
    requires root.Some? && Walk(root.value, "") == Some(f)
    ensures f.texts == [] ==> Flattened(root).0 == ""
    ensures f.texts != [] ==> |Flattened(root).0| + 1 == Start(f.texts, "\n", |f.texts|)
  {
    FlattenedIsJoin(root, f);
    JoinLength(f.texts, "\n");
  }

  /**
   * Fragment `k` of the walk sits in the flattened text after the earlier fragments,
   * each with its `"\n"`, and a `"\n"` follows every fragment but the last.
   */
  lemma FlattenedTextPlacement(root: Option<Element>, f: Flat, k: nat)
    requires root.Some? && Walk(root.value, "") == Some(f) && k < |f.texts|
    ensures PieceAt(Flattened(root).0, f.texts, "\n", k)
  {
    FlattenedIsJoin(root, f);
    JoinedPieceAt(Flattened(root).0, f.texts, "\n", k);
  }

  lemma FlattenedIsJoin(root: Option<Element>, f: Flat)
    requires root.Some? && Walk(root.value, "") == Some(f)
    ensures Flattened(root).0 == Join(f.texts, "\n")
  {
  }

  /** A tree that raises, like a parse error, yields an empty text and an empty table. */
  lemma FailureYieldsNothing(r: Element)
    requires Fails(r)
    ensures Flattened(Some(r)) == ("", [])
  {
    WalkFailsIff(r, "");
  }

  /** The reference table maps each of its distinct keys to itself. */
  lemma FlattenedTableIsIdentity(root: Option<Element>)
    ensures var t := Flattened(root).1;
      DistinctKeys(t) && forall i :: 0 <= i < |t| ==> t[i].0 == t[i].1
  {
    if root.Some? && Walk(root.value, "").Some? {
      PutLabelsIdentity([], Walk(root.value, "").value.labels);
    }
  }

  /**
   * The keys of the reference table come in pre-order of the `Label` elements that
   * produce them, a repeated key keeping the place of its first label; the aligner's
   * first-match rule breaks ties in this order.
   */
  lemma FlattenedKeyOrder(r: Element)
    ensures Walk(r, "").Some? ==> Keys(Flattened(Some(r)).1) == FirstOccurrences(Walk(r, "").value.labels)
  {
    if Walk(r, "").Some? {
      PutLabelsKeyOrder(Walk(r, "").value.labels);
    }
  }

  /** A string that neither starts nor ends with whitespace is its own `strip()`. */
  lemma StripUnchanged(s: string)
    requires s != [] && !IsSpace(s[0]) && !IsSpace(s[|s| - 1])
    ensures Strip(s) == s
  {
    assert TrimFront(s) == s;
  }

  /** A childless `Label` whose text needs no stripping stores exactly its key. */
  lemma LabelLeaf(path: string, n: string)
    requires n != [] && !IsSpace(n[0]) && !IsSpace(n[|n| - 1])
    ensures Walk(Element(Label, Some(n), []), path) == Some(Flat([], [RStripDots(path + n)]))
  {
    StripUnchanged(n);
    var key := path + n;
    assert (key + ".")[..|key|] == key;
    assert Own(Element(Label, Some(n), []), path) == Flat([], [RStripDots(key)]);
  }

  /** A childless `Text` whose text needs no stripping stores exactly `path` and its text. */
  lemma TextLeaf(path: string, x: string)
    requires x != [] && !IsSpace(x[0]) && !IsSpace(x[|x| - 1])
    ensures Walk(Element(Text, Some(x), []), path) == Some(Flat([path + x], []))
  {
    StripUnchanged(x);
  }

  /** The walk of `<Section><Label>n</Label><Text>x</Text></Section>`. */
  lemma SiblingWalk(n: string, x: string)
    requires n != [] && !IsSpace(n[0]) && !IsSpace(n[|n| - 1])
    requires x != [] && !IsSpace(x[0]) && !IsSpace(x[|x| - 1])
    ensures Walk(Element(Section, None, [Element(Label, Some(n), []), Element(Text, Some(x), [])]), "")
            == Some(Flat([x], [RStripDots(n)]))
  {
    SiblingChildren(n, x);
    BlankElement(Element(Section, None, [Element(Label, Some(n), []), Element(Text, Some(x), [])]), "");
  }

  /** The walk of the two children `<Label>n</Label><Text>x</Text>` at the top level. */
  lemma SiblingChildren(n: string, x: string)
    requires n != [] && !IsSpace(n[0]) && !IsSpace(n[|n| - 1])
    requires x != [] && !IsSpace(x[0]) && !IsSpace(x[|x| - 1])
    ensures WalkAll([Element(Label, Some(n), []), Element(Text, Some(x), [])], "")
            == Some(Flat([x], [RStripDots(n)]))
  {
    var fa := Flat([], [RStripDots(n)]);
    var fb := Flat([x], []);
    TopLabelLeaf(n);
    TopTextLeaf(x);
    PairWalk(Element(Label, Some(n), []), Element(Text, Some(x), []), "", fa, fb);
    ConcatLeaves(RStripDots(n), x);
  }

  /** A label key followed by a text fragment. */
  lemma ConcatLeaves(k: string, x: string)
    ensures Concat(Flat([], [k]), Flat([x], [])) == Flat([x], [k])
  {
    assert [] + [x] == [x] && [k] + [] == [k];
  }

  lemma TopLabelLeaf(n: string)
    requires n != [] && !IsSpace(n[0]) && !IsSpace(n[|n| - 1])
    ensures Walk(Element(Label, Some(n), []), "") == Some(Flat([], [RStripDots(n)]))
  {
    LabelLeaf("", n);
    assert "" + n == n;
  }

  lemma TopTextLeaf(x: string)
    requires x != [] && !IsSpace(x[0]) && !IsSpace(x[|x| - 1])
    ensures Walk(Element(Text, Some(x), []), "") == Some(Flat([x], []))
  {
    TextLeaf("", x);
    assert "" + x == x;
  }

  /** Two siblings whose walks are known. */
  lemma PairWalk(a: Element, b: Element, path: string, fa: Flat, fb: Flat)
    requires Walk(a, path) == Some(fa) && Walk(b, path) == Some(fb)
    ensures WalkAll([a, b], path) == Some(Concat(fa, fb))
  {
    WalkAllTwo(a, b, path);
  }

  /**
   * The prefix of a `Label` reaches only the label's own children: in
   * `<Section><Label>n</Label><Text>x</Text></Section>` the text is stored without `n.`.
   */
  lemma LabelPrefixSkipsSiblings(n: string, x: string)
    requires n != [] && !IsSpace(n[0]) && !IsSpace(n[|n| - 1])
    requires x != [] && !IsSpace(x[0]) && !IsSpace(x[|x| - 1])
    ensures Flattened(Some(Element(Section, None, [
              Element(Label, Some(n), []),
              Element(Text, Some(x), [])])))
            == (x, [(RStripDots(n), RStripDots(n))])
  {
    var e := Element(Section, None, [Element(Label, Some(n), []), Element(Text, Some(x), [])]);
    var k := RStripDots(n);
    SiblingWalk(n, x);
    assert Walk(e, "") == Some(Flat([x], [k]));
    assert Join([x], "\n") == x;
    PutLabelsOne(k);
  }

  /** One label key stored into an empty table. */
  lemma PutLabelsOne(k: string)
    ensures PutLabels([], [k]) == [(k, k)]
  {
    assert Put([], k, k) == [(k, k)];
    assert [k][1..] == [];
  }

  /** The walk of `<Label>n<Label>m</Label><Text>x</Text></Label>`. */
  lemma NestedWalk(n: string, m: string, x: string)
    requires n != [] && !IsSpace(n[0]) && !IsSpace(n[|n| - 1]) && n[|n| - 1] != '.'
    requires m != [] && !IsSpace(m[0]) && !IsSpace(m[|m| - 1]) && m[|m| - 1] != '.'
    requires x != [] && !IsSpace(x[0]) && !IsSpace(x[|x| - 1])
    ensures Walk(Element(Label, Some(n), [Element(Label, Some(m), []), Element(Text, Some(x), [])]), "")
            == Some(Flat([n + "." + x], [n, n + "." + m]))
  {
    var inner := Element(Label, Some(m), []);
    var txt := Element(Text, Some(x), []);
    var p := n + ".";
    var fa := Flat([], [p + m]);
    var fb := Flat([p + x], []);
    LabelLeaf(p, m);
    assert (p + m)[|p + m| - 1] == m[|m| - 1];
    NoTrailingDot(p + m);
    TextLeaf(p, x);
    PairWalk(inner, txt, p, fa, fb);
    assert Concat(fa, fb) == Flat([p + x], [p + m]);
    NestedOuter(n, [inner, txt], [p + x], [p + m]);
    assert [n] + [p + m] == [n, p + m];
  }

  /** A string not ending in `.` is its own `rstrip('.')`. */
  lemma NoTrailingDot(s: string)
    requires s != [] && s[|s| - 1] != '.'
    ensures RStripDots(s) == s
  {
  }

  /** An outer `Label` n whose children's walk is known. */
  lemma NestedOuter(n: string, cs: seq<Element>, texts: seq<string>, labels: seq<string>)
    requires n != [] && !IsSpace(n[0]) && !IsSpace(n[|n| - 1]) && n[|n| - 1] != '.'
    requires WalkAll(cs, n + ".") == Some(Flat(texts, labels))
    ensures Walk(Element(Label, Some(n), cs), "") == Some(Flat(texts, [n] + labels))
  {
    StripUnchanged(n);
    LabelElement(Element(Label, Some(n), cs), "", n);
    assert "" + n == n;
    NoTrailingDot(n);
  }

  /**
   * Children of a `Label` get its text and a `.` as prefix: in
   * `<Label>n<Label>m</Label><Text>x</Text></Label>` the inner key joins both labels
   * and the text carries the prefix `n.`.
   */
  lemma NestedLabelPaths(n: string, m: string, x: string)
    requires n != [] && !IsSpace(n[0]) && !IsSpace(n[|n| - 1]) && n[|n| - 1] != '.'
    requires m != [] && !IsSpace(m[0]) && !IsSpace(m[|m| - 1]) && m[|m| - 1] != '.'
    requires x != [] && !IsSpace(x[0]) && !IsSpace(x[|x| - 1])
    ensures Flattened(Some(Element(Label, Some(n), [
              Element(Label, Some(m), []),
              Element(Text, Some(x), [])])))
            == (n + "." + x, [(n, n), (n + "." + m, n + "." + m)])
  {
    NestedWalk(n, m, x);
    PutLabelsTwo(n, n + "." + m);
    assert Join([n + "." + x], "\n") == n + "." + x;
  }

  /** Two different label keys stored into an empty table. */
  lemma PutLabelsTwo(a: string, b: string)
    requires |a| < |b|
    ensures PutLabels([], [a, b]) == [(a, a), (b, b)]
  {
    PutNew([], a, a);
    assert Put([], a, a) == [(a, a)];
    PutNew([(a, a)], b, b);
    assert Put([(a, a)], b, b) == [(a, a), (b, b)];
    assert [a, b][0] == a && [a, b][1..] == [b];
    assert PutLabels([], [a, b]) == PutLabels([(a, a)], [b]);
    assert [b][0] == b && [b][1..] == [];
    assert PutLabels([(a, a)], [b]) == PutLabels([(a, a), (b, b)], []);
  }

  // ---------------------------------------------------------------------------
  // The imperative walk

  /** The enclosing state of `process_xml_file`: the `plain_text` list and `reference_dict`. */
  class Flattener {
    var plainText: seq<string>
    var referenceDict: Table

    constructor ()
      ensures plainText == [] && referenceDict == []
    {
      plainText := [];
      referenceDict := [];
    }

    /** What `process_element` does with the element itself: store a label's key or append its text. */
    method StoreOwn(e: Element, path: string)
      modifies this
      ensures plainText == old(plainText) + Own(e, path).texts
      ensures referenceDict == PutLabels(old(referenceDict), Own(e, path).labels)
    {
      var text := if e.text.Some? then Strip(e.text.value) else "";
      if Recognised(e.tag) && text != "" {
        if e.tag == Label {
          var newPath := path + text + ".";
          referenceDict := Put(referenceDict, RStripDots(newPath), RStripDots(newPath));
        } else {
          plainText := plainText + [path + text];
        }
      }
      OwnStored(e, path, old(plainText), old(referenceDict), plainText, referenceDict);
    }

    /** `process_element(e, path)`: appends to the two collections; `false` when it raises. */
    method ProcessElement(e: Element, path: string) returns (ok: bool)
      modifies this
      ensures ok == Walk(e, path).Some?
      ensures ok ==> plainText == old(plainText) + Walk(e, path).value.texts
      ensures ok ==> referenceDict == PutLabels(old(referenceDict), Walk(e, path).value.labels)
      decreases e, 1
    {
      ghost var texts0, refs0 := plainText, referenceDict;
      StoreOwn(e, path);
      if e.tag == Label && e.text.None? && e.children != [] {
        // the first child raises on `path + None`
        LabelWithoutTextRaises(e, path);
        return false;
      }
      ghost var texts1, refs1 := plainText, referenceDict;
      var childPath := path;
      if e.tag == Label && e.text.Some? {
        childPath := path + e.text.value + ".";
      }
      ok := ProcessChildren(e.children, childPath);
      ElementDone(e, path, childPath, ok, texts0, refs0, texts1, refs1, plainText, referenceDict);
    }

    /** The `for child in elem` loop: each child in turn, with the same path; `false` when one raises. */
    method ProcessChildren(cs: seq<Element>, path: string) returns (ok: bool)
      modifies this
      ensures ok == WalkAll(cs, path).Some?
      ensures ok ==> plainText == old(plainText) + WalkAll(cs, path).value.texts
      ensures ok ==> referenceDict == PutLabels(old(referenceDict), WalkAll(cs, path).value.labels)
      decreases cs, 0
    {
      ghost var acc := Flat([], []);
      var i := 0;
      assert cs[..0] == [];
      while i < |cs|
        invariant 0 <= i <= |cs|
        invariant WalkAll(cs[..i], path) == Some(acc)
        invariant plainText == old(plainText) + acc.texts
        invariant referenceDict == PutLabels(old(referenceDict), [] + acc.labels)
      {
        ghost var textsBefore, refsBefore := plainText, referenceDict;
        var childOk := ProcessElement(cs[i], path);
        if !childOk {
          ChildFails(cs, path, i);
          return false;
        }
        ghost var g := Walk(cs[i], path).value;
        ghost var next := Concat(acc, g);
        WalkAllStep(cs, i, path, acc, g);
        TextsExtended(old(plainText), acc.texts, g.texts, next.texts, textsBefore, plainText);
        LabelsExtended(old(referenceDict), [], acc.labels, g.labels, next.labels, refsBefore, referenceDict);
        acc, i := next, i + 1;
      }
      assert cs[..i] == cs;
      assert [] + acc.labels == acc.labels;
      ok := true;
    }
  }

  /** The collections after `process_element` has handled the element itself. */
  lemma OwnStored(e: Element, path: string, texts0: seq<string>, refs0: Table, texts: seq<string>, refs: Table)
    requires var text := if e.text.Some? then Strip(e.text.value) else "";
      if Recognised(e.tag) && text != "" then
        if e.tag == Label then
          texts == texts0 && refs == Put(refs0, RStripDots(path + text + "."), RStripDots(path + text + "."))
        else texts == texts0 + [path + text] && refs == refs0
      else texts == texts0 && refs == refs0
    ensures texts == texts0 + Own(e, path).texts
    ensures refs == PutLabels(refs0, Own(e, path).labels)
  {
    var own := Own(e, path);
    assert texts0 + [] == texts0;
    if own.labels != [] {
      assert own.labels[1..] == [];
    }
  }

  /** A `Label` without text that has children raises on its first child. */
  lemma LabelWithoutTextRaises(e: Element, path: string)
    requires e.tag == Label && e.text.None? && e.children != []
    ensures Walk(e, path).None?
  {
  }

  /** `process_element`'s result from its own part and the walk of its children. */
  lemma ElementDone(e: Element, path: string, cp: string, ok: bool,
                    texts0: seq<string>, refs0: Table, texts1: seq<string>, refs1: Table,
                    texts2: seq<string>, refs2: Table)
    requires !(e.tag == Label && e.text.None?) || e.children == []
    requires cp == if e.tag == Label && e.text.Some? then path + e.text.value + "." else path
    requires texts1 == texts0 + Own(e, path).texts && refs1 == PutLabels(refs0, Own(e, path).labels)
    requires ok == WalkAll(e.children, cp).Some?
    requires ok ==> texts2 == texts1 + WalkAll(e.children, cp).value.texts
    requires ok ==> refs2 == PutLabels(refs1, WalkAll(e.children, cp).value.labels)
    ensures ok == Walk(e, path).Some?
    ensures ok ==> texts2 == texts0 + Walk(e, path).value.texts
    ensures ok ==> refs2 == PutLabels(refs0, Walk(e, path).value.labels)
  {
    if ok {
      var f := WalkAll(e.children, cp).value;
      WalkFinished(e, path, cp, f);
      AppendAssoc(texts0, Own(e, path).texts, f.texts);
      PutLabelsAppend(refs0, Own(e, path).labels, f.labels);
    } else {
      WalkFinishedNone(e, path, cp);
    }
  }

  /** The walk of an element whose children's walk is known. */
  lemma WalkFinished(e: Element, path: string, cp: string, f: Flat)
    requires !(e.tag == Label && e.text.None?) || e.children == []
    requires cp == if e.tag == Label && e.text.Some? then path + e.text.value + "." else path
    requires WalkAll(e.children, cp) == Some(f)
    ensures Walk(e, path) == Some(Concat(Own(e, path), f))
  {
    WalkChildren(e, path);
  }

  /** An element whose children's walk raises raises too. */
  lemma WalkFinishedNone(e: Element, path: string, cp: string)
    requires !(e.tag == Label && e.text.None?) || e.children == []
    requires cp == if e.tag == Label && e.text.Some? then path + e.text.value + "." else path
    requires WalkAll(e.children, cp).None?
    ensures Walk(e, path).None?
  {
    WalkChildren(e, path);
  }

  /** A child that raises makes the walk of its siblings raise. */
  lemma ChildFails(cs: seq<Element>, path: string, i: nat)
    requires i < |cs| && WalkAll(cs[..i], path).Some? && Walk(cs[i], path).None?
    ensures WalkAll(cs, path).None?
  {
    WalkAllSnoc(cs, i, path);
    WalkAllFailsIff(cs[..i + 1], path);
    WalkAllFailsIff(cs, path);
    assert cs[..i + 1][i] == cs[i];
  }

  /** The text list after one more child: its fragments follow those gathered so far. */
  lemma TextsExtended(x: seq<string>, a: seq<string>, g: seq<string>, n: seq<string>, before: seq<string>, after: seq<string>)
    requires before == x + a && after == before + g && n == a + g
    ensures after == x + n
  {
    AppendAssoc(x, a, g);
  }

  /** The reference dict after one more child: its label keys are stored after those gathered so far. */
  lemma LabelsExtended(t: Table, own: seq<string>, a: seq<string>, g: seq<string>, n: seq<string>, before: Table, after: Table)
    requires before == PutLabels(t, own + a) && after == PutLabels(before, g) && n == a + g
    ensures after == PutLabels(t, own + n)
  {
    PutLabelsAppend(t, own + a, g);
    AppendAssoc(own, a, g);
  }

  /** A walk extended by one more sibling that does not raise. */
  lemma WalkAllStep(cs: seq<Element>, i: nat, path: string, f: Flat, g: Flat)
    requires i < |cs| && WalkAll(cs[..i], path) == Some(f) && Walk(cs[i], path) == Some(g)
    ensures WalkAll(cs[..i + 1], path) == Some(Concat(f, g))
  {
    WalkAllSnoc(cs, i, path);
  }

  /** Appending one more sibling to a walk. */
  lemma WalkAllSnoc(cs: seq<Element>, i: nat, path: string)
    requires i < |cs|
    ensures WalkAll(cs[..i + 1], path) ==
      match WalkAll(cs[..i], path)
      case None => None
      case Some(f) =>
        match Walk(cs[i], path)
        case None => None
        case Some(g) => Some(Concat(f, g))
  {
    assert cs[..i + 1][..i] == cs[..i];
  }

  /** The walk of two siblings that do not raise. */
  lemma WalkAllTwo(a: Element, b: Element, path: string)
    requires Walk(a, path).Some? && Walk(b, path).Some?
    ensures WalkAll([a, b], path) == Some(Concat(Walk(a, path).value, Walk(b, path).value))
  {
    var f := Walk(a, path).value;
    WalkAllSnoc([a, b], 0, path);
    WalkAllSnoc([a, b], 1, path);
    assert [a, b][..0] == [] && [a, b][..2] == [a, b];
    assert WalkAll([], path) == Some(Flat([], []));
    assert Concat(Flat([], []), f) == f by {
      assert [] + f.texts == f.texts && [] + f.labels == f.labels;
    }
  }

  /** The walk of an element is its own part followed by its children's walk. */
  lemma WalkChildren(e: Element, path: string)
    ensures e.tag == Label && e.text.None? && e.children != [] ==> Walk(e, path).None?
    ensures !(e.tag == Label && e.text.None?) ==>
      var cp := if e.tag == Label then path + e.text.value + "." else path;
      Walk(e, path) ==
        match WalkAll(e.children, cp)
        case None => None
        case Some(f) => Some(Concat(Own(e, path), f))
  {
    if e.children == [] {
      var o := Own(e, path);
      assert Concat(o, Flat([], [])) == o by {
        assert o.texts + [] == o.texts && o.labels + [] == o.labels;
      }
    }
  }

  /** `process_xml_file` on a parsed document (`None` for a parse error): the joined text and the reference table. */
  method ProcessXmlFile(root: Option<Element>) returns (text: string, refs: Table)
    ensures (text, refs) == Flattened(root)
  {
    if root.None? {
      return "", [];
    }
    var flattener := new Flattener();
    var ok := flattener.ProcessElement(root.value, "");
    if !ok {
      return "", [];
    }
    assert [] + Walk(root.value, "").value.texts == Walk(root.value, "").value.texts;
    text := Join(flattener.plainText, "\n");
    refs := flattener.referenceDict;
  }
}
