/**
 * What `parseCatches` guarantees about the entries it returns: where a
 * script-mode body starts and ends, when the call fails, that every header in
 * the scanned text yields exactly one entry and in text order, and how the
 * tag-mode and region results compose.
 */
module CatchProperties {
  import opened Wrappers
  import opened Text
  import opened Braces
  import opened Pattern
  import opened CatchPattern
  import opened Catch

  /**
   * A closed body: the text strictly between a `{` and the `}` that closes
   * it, so the braces themselves are excluded and the body is balanced.
   */
  predicate ClosedBody(doc: seq<char>, r: Range)
  {
    && 0 < r.start <= r.end < |doc|
    && doc[r.start - 1] == '{'
    && doc[r.end] == '}'
    && Net(doc[r.start..r.end]) == 0
    && Closes(doc, r.start, r.end + 1)
  }

  /**
   * The body of a block that is never closed: it runs from just after its
   * `{` up to the last character of the document, excluding it; when the
   * header's `{` is itself the last character the range is that `{`.
   */
  predicate OpenBody(doc: seq<char>, r: Range)
  {
    && 0 < |doc|
    && ((0 < r.start <= r.end == |doc| - 1 && doc[r.start - 1] == '{' && NeverCloses(doc, r.start))
        || (r == Range(|doc| - 1, |doc|) && doc[|doc| - 1] == '{'))
  }

  /**
   * The range from a body start `bs`, just after a `{`, to one before the
   * matcher's result is a closed or an open body.
   */
  lemma BodyRange(doc: seq<char>, bs: nat)
    requires 0 < bs <= |doc| && doc[bs - 1] == '{'
    ensures ClosedBody(doc, MkRange(bs, ClosingOffset(doc, bs) - 1))
         || OpenBody(doc, MkRange(bs, ClosingOffset(doc, bs) - 1))
    ensures ClosedBody(doc, MkRange(bs, ClosingOffset(doc, bs) - 1)) ==>
              MkRange(bs, ClosingOffset(doc, bs) - 1).start == bs
    ensures bs < |doc| ==> MkRange(bs, ClosingOffset(doc, bs) - 1).start == bs
    ensures bs - 1 <= MkRange(bs, ClosingOffset(doc, bs) - 1).start <= bs
  {
    var c := ClosingOffset(doc, bs);
    if Closes(doc, bs, c) {
      ClosedBodyBalanced(doc, bs, c);
      assert MkRange(bs, c - 1) == Range(bs, c - 1);
    } else if bs < c {
      assert MkRange(bs, c - 1) == Range(bs, |doc| - 1);
    } else {
      assert MkRange(bs, c - 1) == Range(|doc| - 1, |doc|);
    }
  }

  /**
   * The body of one clause is closed or open. It starts at the header's end,
   * except when the header's `{` ends the document, where it starts on that `{`.
   */
  lemma ClauseBody(doc: seq<char>, s: Scope, b: seq<nat>)
    requires InDocument(doc, s) && IsHeader(s.text, b) && ScriptClause(doc, s, b).Success?
    ensures ClosedBody(doc, ScriptClause(doc, s, b).value.bodyRange)
         || OpenBody(doc, ScriptClause(doc, s, b).value.bodyRange)
    ensures ClosedBody(doc, ScriptClause(doc, s, b).value.bodyRange) ==>
              ScriptClause(doc, s, b).value.bodyRange.start == BodyStart(s, b)
    ensures BodyStart(s, b) < |doc| ==> ScriptClause(doc, s, b).value.bodyRange.start == BodyStart(s, b)
    ensures BodyStart(s, b) - 1 <= ScriptClause(doc, s, b).value.bodyRange.start <= BodyStart(s, b)
  {
    var bs := BodyStart(s, b);
    HeaderDelimiters(s.text, b);
    assert doc[bs - 1] == s.text[b[13]];
    assert ScriptClause(doc, s, b).value.bodyRange == MkRange(bs, ClosingOffset(doc, bs) - 1);
    BodyRange(doc, bs);
  }

  /**
   * A clause fails only for a block that is never closed in a document whose
   * last character ends a line: the brace matcher then reports the start of
   * the following, empty line, and stepping one column back from it throws.
   */
  lemma ClauseFailure(doc: seq<char>, s: Scope, b: seq<nat>)
    requires InDocument(doc, s) && IsHeader(s.text, b) && ScriptClause(doc, s, b).Failure?
    ensures BodyStart(s, b) < |doc| && NeverCloses(doc, BodyStart(s, b))
    ensures IsLineBreak(doc[|doc| - 1])
    ensures ScriptClause(doc, s, b).error == NegativeColumn(|doc|)
  {
    var bs := BodyStart(s, b);
    var c := ClosingOffset(doc, bs);
    HeaderDelimiters(s.text, b);
    assert doc[bs - 1] == s.text[b[13]];
    if Closes(doc, bs, c) {
      ClosedBodyBalanced(doc, bs, c);
      assert false;
    }
  }

  /** Every script-mode entry has a closed or an open body. */
  lemma ScriptCatchBody(doc: seq<char>, docRange: Option<Range>, k: nat)
    requires ScriptCatches(doc, docRange).Success? && k < |ScriptCatches(doc, docRange).value|
    ensures ClosedBody(doc, ScriptCatches(doc, docRange).value[k].bodyRange)
         || OpenBody(doc, ScriptCatches(doc, docRange).value[k].bodyRange)
  {
    var s := ScopeOf(doc, docRange);
    var ms := ScanFrom(s.text, 0);
    ClauseBody(doc, s, ms[k]);
  }

  /** Script-mode entries come in text order: their bodies start strictly increasing. */
  lemma ScriptCatchesOrdered(doc: seq<char>, docRange: Option<Range>, j: nat, k: nat)
    requires ScriptCatches(doc, docRange).Success? && j < k < |ScriptCatches(doc, docRange).value|
    ensures ScriptCatches(doc, docRange).value[j].bodyRange.start
          < ScriptCatches(doc, docRange).value[k].bodyRange.start
  {
    var s := ScopeOf(doc, docRange);
    var ms := ScanFrom(s.text, 0);
    ClauseBody(doc, s, ms[j]);
    ClauseBody(doc, s, ms[k]);
    HeaderBounds(s.text, ms[k]);
  }

  /**
   * With a range inside the document every body starts inside the range,
   * after a header of at least twelve characters; the body may end beyond
   * the range, since the brace matcher searches the whole document.
   */
  lemma ScriptCatchesInRange(doc: seq<char>, from: nat, to: nat, k: nat)
    requires from <= to <= |doc|
    requires ScriptCatches(doc, Some(Range(from, to))).Success?
    requires k < |ScriptCatches(doc, Some(Range(from, to))).value|
    ensures from + 11 <= ScriptCatches(doc, Some(Range(from, to))).value[k].bodyRange.start <= to
  {
    var s := ScopeOf(doc, Some(Range(from, to)));
    var ms := ScanFrom(s.text, 0);
    ClauseBody(doc, s, ms[k]);
  }

  /** Every entry is the clause of a header found in the scanned text. */
  lemma ScriptCatchesSound(doc: seq<char>, docRange: Option<Range>, k: nat)
    requires ScriptCatches(doc, docRange).Success? && k < |ScriptCatches(doc, docRange).value|
    ensures exists b :: IsHeader(ScopeOf(doc, docRange).text, b)
                     && ScriptClause(doc, ScopeOf(doc, docRange), b) == Success(ScriptCatches(doc, docRange).value[k])
  {
    var s := ScopeOf(doc, docRange);
    var ms := ScanFrom(s.text, 0);
    assert IsHeader(s.text, ms[k]);
  }

  /** Every header in the scanned text yields an entry: none is skipped. */
  lemma ScriptCatchesComplete(doc: seq<char>, docRange: Option<Range>, b: seq<nat>)
    requires ScriptCatches(doc, docRange).Success?
    requires IsHeader(ScopeOf(doc, docRange).text, b)
    ensures exists k :: 0 <= k < |ScriptCatches(doc, docRange).value|
                     && Success(ScriptCatches(doc, docRange).value[k]) == ScriptClause(doc, ScopeOf(doc, docRange), b)
  {
    var s := ScopeOf(doc, docRange);
    var ms := ScanFrom(s.text, 0);
    HeaderBounds(s.text, b);
    ScanComplete(s.text, 0, b[0]);
    var k :| 0 <= k < |ms| && ms[k][0] == b[0];
    MatchAtIff(s.text, b[0], b);
    MatchAtIff(s.text, b[0], ms[k]);
    assert ms[k] == b;
  }

  /** Tag mode keeps tag order: the entries of two tag lists are the entries of each, concatenated. */
  lemma {:induction false} TagCatchesAppend(a: seq<Tag>, b: seq<Tag>)
    ensures TagCatches(a + b) == TagCatches(a) + TagCatches(b)
    decreases |a|
  {
    if |a| == 0 {
      assert a + b == b;
    } else {
      assert (a + b)[0] == a[0];
      assert (a + b)[1..] == a[1..] + b;
      TagCatchesAppend(a[1..], b);
    }
  }

  /** The number of tags that have a body, counted from the end. */
  function CountBodied(tags: seq<Tag>): nat
  {
    if |tags| == 0 then 0
    else CountBodied(tags[..|tags| - 1]) + (if tags[|tags| - 1].bodyRange.Some? then 1 else 0)
  }

  /** Tag mode yields one entry per tag with a body and none for the others. */
  lemma {:induction false} TagCatchesCount(tags: seq<Tag>)
    ensures |TagCatches(tags)| == CountBodied(tags)
    decreases |tags|
  {
    if |tags| > 0 {
      var init := tags[..|tags| - 1];
      assert tags == init + [tags[|tags| - 1]];
      TagCatchesAppend(init, [tags[|tags| - 1]]);
      TagCatchesCount(init);
    }
  }

  /** Gathering two lists of results is gathering each, concatenated, when both succeed. */
  lemma {:induction false} GatherAppend(a: seq<Result<seq<CatchInfo>, CatchError>>, b: seq<Result<seq<CatchInfo>, CatchError>>)
    requires Gather(a).Success? && Gather(b).Success?
    ensures Gather(a + b) == Success(Gather(a).value + Gather(b).value)
    decreases |a|
  {
    if |a| == 0 {
      assert a + b == b;
      assert Gather(a).value + Gather(b).value == Gather(b).value;
    } else {
      assert (a + b)[0] == a[0];
      assert (a + b)[1..] == a[1..] + b;
      GatherAppend(a[1..], b);
      var x, y, z := a[0].value, Gather(a[1..]).value, Gather(b).value;
      assert Gather(a) == Success(x + y);
      assert Gather(a + b) == Success(x + (y + z));
      assert x + (y + z) == (x + y) + z;
    }
  }

  /** Mapping over a concatenation maps each part. */
  lemma MapAppend<A, B>(f: A -> B, a: seq<A>, b: seq<A>)
    ensures Map(f, a + b) == Map(f, a) + Map(f, b)
  {
    var n := |a|;
    forall k | 0 <= k < |a + b|
      ensures Map(f, a + b)[k] == (Map(f, a) + Map(f, b))[k]
    {
      if k < n {
        assert (a + b)[k] == a[k];
      } else {
        assert (a + b)[k] == b[k - n];
      }
    }
  }

  /** The script ranges compose: scanning two lists of ranges is scanning each, concatenated. */
  lemma ScriptRegionsAppend(doc: seq<char>, a: seq<Range>, b: seq<Range>)
    requires ScriptRegions(doc, a).Success? && ScriptRegions(doc, b).Success?
    ensures ScriptRegions(doc, a + b) == Success(ScriptRegions(doc, a).value + ScriptRegions(doc, b).value)
  {
    MapAppend(ScanRegion(doc), a, b);
    GatherAppend(RegionResults(doc, a), RegionResults(doc, b));
  }

  /** With no script range the region pass adds nothing. */
  lemma ScriptRegionsNone(doc: seq<char>)
    ensures ScriptRegions(doc, []) == Success([])
  {
  }

  /** A single script range contributes exactly script mode over that range. */
  lemma ScriptRegionsOne(doc: seq<char>, r: Range)
    ensures ScriptRegions(doc, [r]) == ScriptCatches(doc, Some(r))
  {
    var parts := RegionResults(doc, [r]);
    assert parts == [ScriptCatches(doc, Some(r))];
    assert parts[1..] == [];
    assert Gather(parts[1..]) == Success([]);
    assert ScriptRegions(doc, [r]) == Gather(parts);
    match ScriptCatches(doc, Some(r))
    case Failure(e) =>
    case Success(cs) =>
      assert cs + [] == cs;
      assert Gather(parts) == Success(cs + []);
  }
}
