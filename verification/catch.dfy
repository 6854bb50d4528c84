/**
 * The catch-clause extractor `parseCatches` of src/entities/catch.ts.
 *
 * The document is its sanitized text (comments and string bodies blanked,
 * same length); positions are character offsets. The two helpers whose source
 * is not part of this model enter as the values they return for this call:
 * `tags` is what `parseTags(context, "cfcatch", docRange)` returns and
 * `scriptRanges` is what `getCfScriptRanges(document, docRange)` returns.
 * The brace matcher `getClosingPosition` is `Braces.ClosingOffset`.
 *
 * The source throws in one case: `Position.translate(0, -1)` on a position in
 * column 0 raises an error, so a body end that falls at the start of a line
 * makes the whole call fail with `NegativeColumn`.
 */
module Catch {
  import opened Wrappers
  import opened Text
  import opened Braces
  import opened Pattern
  import opened CatchPattern

  datatype Attribute = Attribute(name: string, value: string, valueRange: Range)

  /** One tag occurrence as the tag parser reports it; attributes are keyed by lower-cased name. */
  datatype Tag = Tag(name: string, attributes: map<string, Attribute>, isClosingTag: bool,
                     tagRange: Range, bodyRange: Option<Range>)

  datatype CatchInfo = CatchInfo(catchType: string, variableName: string, bodyRange: Range)

  /** The error the source throws: `translate(0, -1)` of a position in column 0. */
  datatype CatchError = NegativeColumn(offset: nat)

  const AnyType := "any"
  const CatchTagName := "cfcatch"

  /** The text a call scans and the document offset at which it starts. */
  datatype Scope = Scope(offset: nat, text: seq<char>)

  /** A scope lies inside the document and is the document's text there. */
  predicate InDocument(doc: seq<char>, s: Scope)
  {
    s.offset + |s.text| <= |doc| && s.text == doc[s.offset..s.offset + |s.text|]
  }

  /**
   * The whole document, or with a range the slice from its start to its end,
   * each end converted by `offsetAt` (which clamps); `slice` of an inverted
   * pair is empty.
   */
  function ScopeOf(doc: seq<char>, docRange: Option<Range>): (s: Scope)
    ensures InDocument(doc, s)
    ensures docRange.None? ==> s == Scope(0, doc)
    ensures docRange.Some? && docRange.value.start <= docRange.value.end <= |doc| ==>
              s.offset == docRange.value.start && |s.text| == docRange.value.end - docRange.value.start
  {
    match docRange
    case None => Scope(0, doc)
    case Some(r) =>
      var a := Clamp(r.start, |doc|);
      var e := Clamp(r.end, |doc|);
      Scope(a, if e <= a then [] else doc[a..e])
  }

  /** Document offset just after the header's `{`: where the catch body starts. */
  function BodyStart(s: Scope, b: seq<nat>): (r: nat)
    requires IsHeader(s.text, b)
    ensures s.offset + 12 <= r <= s.offset + |s.text|
    ensures 0 < r - s.offset && s.text[r - s.offset - 1] == '{'
    ensures |b| == Last + 1 && r == s.offset + b[13] + 1
  {
    HeaderBounds(s.text, b);
    HeaderDelimiters(s.text, b);
    s.offset + MatchEnd(b)
  }

  /** A script-mode result: a type token and an identifier, as the pattern captures them. */
  predicate IsScriptCatch(c: CatchInfo)
  {
    IsTypeToken(c.catchType) && IsIdentifier(c.variableName)
  }

  /** The `CatchInfo` built from one match `b` of the pattern in the scope's text. */
  function ScriptClause(doc: seq<char>, s: Scope, b: seq<nat>): (r: Result<CatchInfo, CatchError>)
    requires InDocument(doc, s) && IsHeader(s.text, b)
    ensures r.Success? <==> !StartsLine(doc, ClosingOffset(doc, BodyStart(s, b)))
    ensures r.Success? ==> r.value.catchType == TypeGroup(s.text, b)
    ensures r.Success? ==> r.value.variableName == NameGroup(s.text, b)
    ensures r.Success? ==> IsScriptCatch(r.value)
    ensures r.Success? && Closes(doc, BodyStart(s, b), ClosingOffset(doc, BodyStart(s, b))) ==>
              r.value.bodyRange == Range(BodyStart(s, b), ClosingOffset(doc, BodyStart(s, b)) - 1)
  {
    HeaderBounds(s.text, b);
    var catchType := TypeGroup(s.text, b);
    var catchVariable := NameGroup(s.text, b);
    var bodyStart := BodyStart(s, b);
    var closer := ClosingOffset(doc, bodyStart);
    if StartsLine(doc, closer) then
      Failure(NegativeColumn(closer))
    else
      Success(CatchInfo(if |catchType| > 0 then catchType else AnyType, catchVariable,
                        MkRange(bodyStart, closer - 1)))
  }

  /** The clauses of a list of matches, in order; the first failing one fails the list. */
  function ScriptClauses(doc: seq<char>, s: Scope, ms: seq<seq<nat>>): (r: Result<seq<CatchInfo>, CatchError>)
    requires InDocument(doc, s)
    requires forall k :: 0 <= k < |ms| ==> IsHeader(s.text, ms[k])
    ensures r.Success? <==> forall k :: 0 <= k < |ms| ==> ScriptClause(doc, s, ms[k]).Success?
    ensures r.Success? ==> |r.value| == |ms|
    ensures r.Success? ==> forall k :: 0 <= k < |ms| ==> r.value[k] == ScriptClause(doc, s, ms[k]).value
  {
    if |ms| == 0 then Success([])
    else
      match ScriptClause(doc, s, ms[0])
      case Failure(e) => Failure(e)
      case Success(c) =>
        match ScriptClauses(doc, s, ms[1..])
        case Failure(e) => Failure(e)
        case Success(cs) =>
          assert forall k :: 1 <= k < |ms| ==> ms[1..][k - 1] == ms[k];
          Success([c] + cs)
  }

  /** Script mode (`isScript` true): every match of the pattern in the scope, in order. */
  function ScriptCatches(doc: seq<char>, docRange: Option<Range>): (r: Result<seq<CatchInfo>, CatchError>)
    ensures r.Success? ==> |r.value| == |ScanFrom(ScopeOf(doc, docRange).text, 0)|
    ensures r.Success? ==> forall c :: c in r.value ==> IsScriptCatch(c)
  {
    var s := ScopeOf(doc, docRange);
    ScriptClauses(doc, s, ScanFrom(s.text, 0))
  }

  /** The entry a `cfcatch` tag contributes: none without a body, otherwise its attributes or the defaults. */
  function TagCatch(tag: Tag): (r: Option<CatchInfo>)
    ensures r.None? <==> tag.bodyRange.None?
    ensures r.Some? ==> r.value.bodyRange == tag.bodyRange.value
    ensures r.Some? && "type" !in tag.attributes ==> r.value.catchType == AnyType
    ensures r.Some? && "type" in tag.attributes ==> r.value.catchType == tag.attributes["type"].value
    ensures r.Some? && "name" !in tag.attributes ==> r.value.variableName == CatchTagName
    ensures r.Some? && "name" in tag.attributes ==> r.value.variableName == tag.attributes["name"].value
  {
    match tag.bodyRange
    case None => None
    case Some(body) =>
      var catchType := if "type" in tag.attributes then tag.attributes["type"].value else AnyType;
      var catchVariable := if "name" in tag.attributes then tag.attributes["name"].value else CatchTagName;
      Some(CatchInfo(catchType, catchVariable, body))
  }

  /** The entries of the tags, in tag order, skipping tags without a body. */
  function TagCatches(tags: seq<Tag>): (r: seq<CatchInfo>)
    ensures |r| <= |tags|
    ensures forall c :: c in r <==> exists tag :: tag in tags && TagCatch(tag) == Some(c)
  {
    if |tags| == 0 then []
    else
      var rest := TagCatches(tags[1..]);
      assert forall tag :: tag in tags[1..] ==> tag in tags;
      assert forall tag :: tag in tags ==> tag == tags[0] || tag in tags[1..];
      match TagCatch(tags[0])
      case None => rest
      case Some(c) => [c] + rest
  }

  /** The results of several calls concatenated in order; the first failure is the result if one fails. */
  function Gather(parts: seq<Result<seq<CatchInfo>, CatchError>>): (r: Result<seq<CatchInfo>, CatchError>)
    ensures r.Success? <==> forall k :: 0 <= k < |parts| ==> parts[k].Success?
  {
    if |parts| == 0 then Success([])
    else
      match parts[0]
      case Failure(e) => Failure(e)
      case Success(cs) =>
        match Gather(parts[1..])
        case Failure(e) => Failure(e)
        case Success(more) =>
          assert forall k :: 1 <= k < |parts| ==> parts[1..][k - 1] == parts[k];
          Success(cs + more)
  }

  /** Every gathered entry comes from one of the parts. */
  lemma {:induction false} GatherFrom(parts: seq<Result<seq<CatchInfo>, CatchError>>)
    requires Gather(parts).Success?
    ensures forall c :: c in Gather(parts).value ==> exists k :: 0 <= k < |parts| && c in parts[k].value
  {
    if |parts| > 0 {
      GatherFrom(parts[1..]);
      assert Gather(parts).value == parts[0].value + Gather(parts[1..]).value;
      forall c | c in Gather(parts).value
        ensures exists k :: 0 <= k < |parts| && c in parts[k].value
      {
        if c !in parts[0].value {
          var k :| 0 <= k < |parts[1..]| && c in parts[1..][k].value;
          assert parts[1..][k] == parts[k + 1];
        }
      }
    }
  }

  /** `f` applied to each element, in order. */
  function Map<A, B>(f: A -> B, xs: seq<A>): (ys: seq<B>)
    ensures |ys| == |xs|
    ensures forall k :: 0 <= k < |xs| ==> ys[k] == f(xs[k])
  {
    seq(|xs|, k requires 0 <= k < |xs| => f(xs[k]))
  }

  /** Script mode restricted to one range of the document. */
  function ScanRegion(doc: seq<char>): Range -> Result<seq<CatchInfo>, CatchError>
  {
    r => ScriptCatches(doc, Some(r))
  }

  /** Script mode run once per script range, in range order. */
  function RegionResults(doc: seq<char>, ranges: seq<Range>): (rs: seq<Result<seq<CatchInfo>, CatchError>>)
    ensures |rs| == |ranges|
    ensures forall k :: 0 <= k < |ranges| ==> rs[k] == ScriptCatches(doc, Some(ranges[k]))
  {
    Map(ScanRegion(doc), ranges)
  }

  /** Script mode over each script range in turn, the results concatenated in range order. */
  function ScriptRegions(doc: seq<char>, ranges: seq<Range>): (r: Result<seq<CatchInfo>, CatchError>)
    ensures r.Success? <==> forall k :: 0 <= k < |ranges| ==> ScriptCatches(doc, Some(ranges[k])).Success?
    ensures r.Success? ==> forall c :: c in r.value ==> IsScriptCatch(c)
  {
    var parts := RegionResults(doc, ranges);
    if Gather(parts).Success? then
      GatherFrom(parts);
      Gather(parts)
    else
      Gather(parts)
  }

  /**
   * `parseCatches(context, isScript, docRange)`. In tag mode `tags` and
   * `scriptRanges` are the results of the tag parser and of the script-range
   * detector for `docRange`; script mode does not use them.
   */
  function ParseCatches(doc: seq<char>, isScript: bool, docRange: Option<Range>,
                        tags: seq<Tag>, scriptRanges: seq<Range>): (r: Result<seq<CatchInfo>, CatchError>)
    ensures isScript ==> r == ScriptCatches(doc, docRange)
    ensures isScript && r.Success? ==> forall c :: c in r.value ==> IsScriptCatch(c)
    ensures !isScript ==>
              (r.Success? <==> forall k :: 0 <= k < |scriptRanges| ==> ScriptCatches(doc, Some(scriptRanges[k])).Success?)
    ensures !isScript && r.Success? ==>
              && |TagCatches(tags)| <= |r.value|
              && r.value[..|TagCatches(tags)|] == TagCatches(tags)
              && forall c :: c in r.value[|TagCatches(tags)|..] ==> IsScriptCatch(c)
    ensures !isScript && r.Success? ==> r.value == TagCatches(tags) + ScriptRegions(doc, scriptRanges).value
  {
    if isScript then
      ScriptCatches(doc, docRange)
    else
      var tagCatches := TagCatches(tags);
      match ScriptRegions(doc, scriptRanges)
      case Failure(e) => Failure(e)
      case Success(more) =>
        assert (tagCatches + more)[..|tagCatches|] == tagCatches;
        assert (tagCatches + more)[|tagCatches|..] == more;
        Success(tagCatches + more)
  }
}
