/**
 * The reference aligner of `create_vector_store` (the same loop in
 * query-using-xml.py, query-using-html.py and backend.py): it walks the text
 * chunks in order with one cursor, `current_reference`, that starts as `None`.
 * In each chunk the first key of the reference table, in table order, that occurs
 * in the chunk moves the cursor to that key's value; a chunk with no key keeps the
 * cursor. Each chunk becomes a record whose metadata holds the cursor as
 * `reference` only while the cursor is truthy.
 */
module Aligner {
  import opened Wrappers
  import opened Strings
  import opened RefTable

  /** `{"content": chunk, "metadata": metadata}`: `reference` is the only metadata key the aligner writes. */
  datatype Record = Record(content: string, reference: Option<string>)

  /** The position, in table order, of the first key that occurs in `chunk`. */
  function FirstMatch(t: Table, chunk: string): (r: Option<nat>)
    ensures r.Some? ==> r.value < |t| && IsSubstring(t[r.value].0, chunk)
    ensures r.Some? ==> forall i :: 0 <= i < r.value ==> !IsSubstring(t[i].0, chunk)
    ensures r.None? <==> forall i :: 0 <= i < |t| ==> !IsSubstring(t[i].0, chunk)
  {
    if t == [] then None
    else if Contains(t[0].0, chunk) then Some(0)
    else
      match FirstMatch(t[1..], chunk)
      case None => None
      case Some(i) => Some(i + 1)
  }

  /** The cursor after one chunk: it stays, or moves to the value of a key that occurs in the chunk. */
  function Step(t: Table, cursor: Option<string>, chunk: string): (r: Option<string>)
    ensures r == cursor || exists i :: 0 <= i < |t| && IsSubstring(t[i].0, chunk) && r == Some(t[i].1)
    ensures (forall i :: 0 <= i < |t| ==> !IsSubstring(t[i].0, chunk)) ==> r == cursor
  {
    match FirstMatch(t, chunk)
    case Some(i) => Some(t[i].1)
    case None => cursor
  }

  /** The cursor after all of `chunks`, starting from `None`; it is still `None` exactly when no chunk contains a key. */
  function CursorAfter(t: Table, chunks: seq<string>): (r: Option<string>)
    ensures r.None? <==> forall j :: 0 <= j < |chunks| ==> FirstMatch(t, chunks[j]).None?
  {
    if chunks == [] then None
    else
      var front := chunks[..|chunks| - 1];
      assert forall j :: 0 <= j < |front| ==> front[j] == chunks[j];
      Step(t, CursorAfter(t, front), chunks[|chunks| - 1])
  }

  /** Python's `if current_reference:`; `None` and `""` are false. */
  predicate Truthy(cursor: Option<string>) {
    cursor.Some? && cursor.value != ""
  }

  /** The record of one chunk under the given cursor. */
  function Attach(chunk: string, cursor: Option<string>): Record {
    Record(chunk, if Truthy(cursor) then cursor else None)
  }

  /** The records of all chunks: one per chunk, and a record never carries a falsy reference. */
  function Aligned(t: Table, chunks: seq<string>): (r: seq<Record>)
    ensures |r| == |chunks|
    ensures forall i :: 0 <= i < |r| && r[i].reference.Some? ==> r[i].reference.value != ""
  {
    if chunks == [] then []
    else Aligned(t, chunks[..|chunks| - 1]) + [Attach(chunks[|chunks| - 1], CursorAfter(t, chunks))]
  }

  /** The loop of `create_vector_store` that builds `documents`. */
  method CreateDocuments(chunks: seq<string>, referenceDict: Table) returns (documents: seq<Record>)
    ensures documents == Aligned(referenceDict, chunks)
  {
    documents := [];
    var currentReference: Option<string> := None;
    var n := 0;
    while n < |chunks|
      invariant 0 <= n <= |chunks|
      invariant currentReference == CursorAfter(referenceDict, chunks[..n])
      invariant documents == Aligned(referenceDict, chunks[..n])
    {
      var chunk := chunks[n];
      ghost var before := currentReference;
      var j := 0;
      while j < |referenceDict|
        invariant 0 <= j <= |referenceDict|
        invariant forall i :: 0 <= i < j ==> !IsSubstring(referenceDict[i].0, chunk)
        invariant currentReference == before
      {
        var (key, value) := referenceDict[j];
        if Contains(key, chunk) {
          currentReference := Some(value);
          break;
        }
        j := j + 1;
      }
      CursorStep(referenceDict, chunks, n, before, currentReference, j);
      var reference := if currentReference.Some? && currentReference.value != "" then currentReference else None;
      documents := documents + [Record(chunk, reference)];
      n := n + 1;
    }
    assert chunks[..n] == chunks;
  }

  /** What the inner loop leaves: one step of the cursor and one more record. */
  lemma CursorStep(t: Table, chunks: seq<string>, n: nat, before: Option<string>, after: Option<string>, j: nat)
    requires n < |chunks| && before == CursorAfter(t, chunks[..n])
    requires j <= |t| && forall i :: 0 <= i < j ==> !IsSubstring(t[i].0, chunks[n])
    requires j < |t| ==> IsSubstring(t[j].0, chunks[n]) && after == Some(t[j].1)
    requires j == |t| ==> after == before
    ensures after == CursorAfter(t, chunks[..n + 1])
    ensures Aligned(t, chunks[..n + 1]) == Aligned(t, chunks[..n]) + [Attach(chunks[n], after)]
  {
    StepCursor(t, chunks, n, before, after, j);
    StepRecords(t, chunks, n, after);
  }

  lemma StepCursor(t: Table, chunks: seq<string>, n: nat, before: Option<string>, after: Option<string>, j: nat)
    requires n < |chunks| && before == CursorAfter(t, chunks[..n])
    requires j <= |t| && forall i :: 0 <= i < j ==> !IsSubstring(t[i].0, chunks[n])
    requires j < |t| ==> IsSubstring(t[j].0, chunks[n]) && after == Some(t[j].1)
    requires j == |t| ==> after == before
    ensures after == CursorAfter(t, chunks[..n + 1])
  {
    CursorAfterPrefix(t, chunks, n);
    StepAt(t, before, after, chunks[n], j);
  }

  lemma CursorAfterPrefix(t: Table, chunks: seq<string>, n: nat)
    requires n < |chunks|
    ensures CursorAfter(t, chunks[..n + 1]) == Step(t, CursorAfter(t, chunks[..n]), chunks[n])
  {
    var s := chunks[..n + 1];
    calc {
      CursorAfter(t, s);
      Step(t, CursorAfter(t, s[..n]), s[n]);
      { assert s[..n] == chunks[..n]; }
      Step(t, CursorAfter(t, chunks[..n]), chunks[n]);
    }
  }

  /** The cursor after one chunk, given where the inner loop stopped. */
  lemma StepAt(t: Table, before: Option<string>, after: Option<string>, chunk: string, j: nat)
    requires j <= |t| && forall i :: 0 <= i < j ==> !IsSubstring(t[i].0, chunk)
    requires j < |t| ==> IsSubstring(t[j].0, chunk) && after == Some(t[j].1)
    requires j == |t| ==> after == before
    ensures Step(t, before, chunk) == after
  {
    FirstMatchFound(t, chunk, j);
  }

  lemma StepRecords(t: Table, chunks: seq<string>, n: nat, after: Option<string>)
    requires n < |chunks| && after == CursorAfter(t, chunks[..n + 1])
    ensures Aligned(t, chunks[..n + 1]) == Aligned(t, chunks[..n]) + [Attach(chunks[n], after)]
  {
    var s := chunks[..n + 1];
    assert s[..n] == chunks[..n] && s[n] == chunks[n];
    AlignedSnoc(t, s);
  }

  /** The inner loop's exit: a hit at `j` after misses before it, or misses throughout. */
  lemma FirstMatchFound(t: Table, chunk: string, j: nat)
    requires j <= |t| && forall i :: 0 <= i < j ==> !IsSubstring(t[i].0, chunk)
    requires j < |t| ==> IsSubstring(t[j].0, chunk)
    ensures FirstMatch(t, chunk) == if j < |t| then Some(j) else None
  {
  }

  lemma AlignedSnoc(t: Table, s: seq<string>)
    requires s != []
    ensures Aligned(t, s) == Aligned(t, s[..|s| - 1]) + [Attach(s[|s| - 1], CursorAfter(t, s))]
  {
  }

  // ---------------------------------------------------------------------------
  // Properties of the alignment

  /** One record per chunk, in chunk order, each holding its chunk unchanged. */
  lemma {:induction false} AlignedShape(t: Table, chunks: seq<string>)
    ensures |Aligned(t, chunks)| == |chunks|
    ensures forall i :: 0 <= i < |chunks| ==> Aligned(t, chunks)[i].content == chunks[i]
  {
    if chunks != [] {
      AlignedShape(t, chunks[..|chunks| - 1]);
    }
  }

  /** Record `i` carries the cursor after chunks `0..i` when that cursor is truthy, and no reference otherwise. */
  lemma {:induction false} AlignedReference(t: Table, chunks: seq<string>, i: nat)
    requires i < |chunks|
    ensures |Aligned(t, chunks)| == |chunks|
    ensures var c := CursorAfter(t, chunks[..i + 1]);
      Aligned(t, chunks)[i].reference == if Truthy(c) then c else None
  {
    AlignedShape(t, chunks);
    var front := chunks[..|chunks| - 1];
    if i == |chunks| - 1 {
      assert chunks[..i + 1] == chunks;
    } else {
      AlignedShape(t, front);
      AlignedReference(t, front, i);
      assert front[..i + 1] == chunks[..i + 1];
    }
  }

  /** The position of the last chunk that contains some key. */
  function LastMatching(t: Table, chunks: seq<string>): (r: Option<nat>)
    ensures r.Some? ==> r.value < |chunks| && FirstMatch(t, chunks[r.value]).Some?
    ensures r.Some? ==> forall j :: r.value < j < |chunks| ==> FirstMatch(t, chunks[j]).None?
    ensures r.None? ==> forall j :: 0 <= j < |chunks| ==> FirstMatch(t, chunks[j]).None?
  {
    if chunks == [] then None
    else if FirstMatch(t, chunks[|chunks| - 1]).Some? then Some(|chunks| - 1)
    else
      var front := chunks[..|chunks| - 1];
      assert forall j :: 0 <= j < |front| ==> front[j] == chunks[j];
      LastMatching(t, front)
  }

  /**
   * Carry-forward: the cursor is the value of the first key (in table order) found in
   * the latest chunk that contains any key, and `None` when no chunk contains a key.
   */
  lemma {:induction false} CursorIsLatestMatch(t: Table, chunks: seq<string>)
    ensures CursorAfter(t, chunks) ==
      match LastMatching(t, chunks)
      case None => None
      case Some(i) => Some(t[FirstMatch(t, chunks[i]).value].1)
  {
    if chunks != [] {
      var front := chunks[..|chunks| - 1];
      CursorIsLatestMatch(t, front);
      if FirstMatch(t, chunks[|chunks| - 1]).None? {
        assert LastMatching(t, chunks) == LastMatching(t, front);
        match LastMatching(t, front)
        case None =>
        case Some(i) =>
          assert front[i] == chunks[i];
      }
    }
  }

  /** Chunks before the first chunk containing a key get no reference. */
  lemma NoReferenceBeforeFirstMatch(t: Table, chunks: seq<string>, i: nat)
    requires i < |chunks|
    requires forall j :: 0 <= j <= i ==> FirstMatch(t, chunks[j]).None?
    ensures |Aligned(t, chunks)| == |chunks| && Aligned(t, chunks)[i].reference == None
  {
    AlignedReference(t, chunks, i);
    var prefix := chunks[..i + 1];
    assert forall j :: 0 <= j < |prefix| ==> prefix[j] == chunks[j];
  }

  /** When every value of the table is non-empty, a truthy cursor stays truthy over any further chunks. */
  lemma {:induction false} TruthyPersists(t: Table, chunks: seq<string>, i: nat)
    requires forall k :: 0 <= k < |t| ==> t[k].1 != ""
    requires i <= |chunks| && Truthy(CursorAfter(t, chunks[..i]))
    ensures Truthy(CursorAfter(t, chunks))
    decreases |chunks| - i
  {
    if i < |chunks| {
      assert chunks[..i + 1][..i] == chunks[..i];
      TruthyPersists(t, chunks, i + 1);
    } else {
      assert chunks[..i] == chunks;
    }
  }

  /**
   * With non-empty values (as in a heading table), record `i` has a reference exactly
   * when some chunk up to `i` contains a key of the table.
   */
  lemma ReferenceIffEarlierMatch(t: Table, chunks: seq<string>, i: nat)
    requires forall k :: 0 <= k < |t| ==> t[k].1 != ""
    requires i < |chunks|
    ensures |Aligned(t, chunks)| == |chunks|
    ensures Aligned(t, chunks)[i].reference.Some? <==>
      exists j :: 0 <= j <= i && FirstMatch(t, chunks[j]).Some?
  {
    AlignedReference(t, chunks, i);
    var prefix := chunks[..i + 1];
    CursorIsLatestMatch(t, prefix);
    match LastMatching(t, prefix)
    case None =>
      forall j | 0 <= j <= i ensures FirstMatch(t, chunks[j]).None? {
        assert prefix[j] == chunks[j];
      }
    case Some(j) =>
      assert prefix[j] == chunks[j];
  }

  /** The cursor only ever holds a value of the table. */
  lemma {:induction false} CursorFromTable(t: Table, chunks: seq<string>)
    ensures CursorAfter(t, chunks).Some? ==> exists k :: 0 <= k < |t| && CursorAfter(t, chunks).value == t[k].1
  {
    if chunks != [] {
      CursorFromTable(t, chunks[..|chunks| - 1]);
    }
  }
}
