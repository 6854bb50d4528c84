/**
 * Worked examples of script-mode extraction on small sanitized documents,
 * and of the tag-mode defaults.
 *
 * Each header is shown to match by exhibiting its boundaries (`IsHeader`);
 * since the pattern never needs to backtrack, those are the boundaries the
 * scan finds. Facts about the characters of an example are proved apart
 * from the facts about its header, which keeps each proof small.
 */
module CatchExamples {
  import opened Wrappers
  import opened Text
  import opened Braces
  import opened Pattern
  import opened CatchPattern
  import opened Catch

  /** The pattern from its third, fourth, fifth, sixth, eighth and eleventh element on. */
  const P2 := CatchHeader.rest.rest
  const P3 := P2.rest
  const P4 := P3.rest
  const P5 := P4.rest
  const P7 := P5.rest.rest
  const P10 := P7.rest.rest.rest

  // ---- Shared steps ---------------------------------------------------

  /** No header fits in the last eleven characters of a text. */
  lemma NoHeaderNearEnd(t: seq<char>, i: nat)
    requires i <= |t| < i + 12
    ensures ScanFrom(t, i) == []
  {
    if FindFrom(t, i).Some? {
      HeaderBounds(t, FindFrom(t, i).value);
    }
  }

  /** A header at 0 that leaves less than a header's length after it is the only match. */
  lemma OnlyHeader(t: seq<char>, b: seq<nat>)
    requires IsHeader(t, b) && b[0] == 0 && |t| < MatchEnd(b) + 12
    ensures ScanFrom(t, 0) == [b]
  {
    HeaderBounds(t, b);
    CatchHeaderDeterministic();
    MatchFromComplete(t, CatchHeader, b);
    assert MatchAt(t, 0) == Some(b);
    assert FindFrom(t, 0) == Some(b);
    NoHeaderNearEnd(t, MatchEnd(b));
  }

  /** The keyword spelled in lower case is a case-insensitive match of it. */
  lemma KeywordAt(t: seq<char>, i: nat)
    requires i + 5 <= |t| && t[i..i + 5] == "catch"
    ensures WordAt(t, i, "catch")
  {
    forall m | 0 <= m < 5
      ensures AsciiLower(t[i + m]) == "catch"[m]
    {
      assert t[i + m] == t[i..i + 5][m];
    }
  }

  /** A text with no match scans to nothing. */
  lemma NothingToScan(t: seq<char>)
    requires forall q :: !MatchesAt(t, q)
    ensures ScanFrom(t, 0) == []
  {
    if FindFrom(t, 0).Some? {
      var b := FindFrom(t, 0).value;
      assert MatchesAt(t, b[0]);
    }
  }

  /** With a single header, script mode over the whole text is that header's clause. */
  lemma SingleClause(doc: seq<char>, b: seq<nat>)
    requires IsHeader(doc, b) && ScanFrom(doc, 0) == [b]
    ensures ScriptCatches(doc, None) == match ScriptClause(doc, Scope(0, doc), b)
                                          case Success(c) => Success([c])
                                          case Failure(e) => Failure(e)
  {
    var s := ScopeOf(doc, None);
    assert s == Scope(0, doc);
    assert [b][0] == b && [b][1..] == [];
    assert ScriptClauses(doc, s, []) == Success([]);
    match ScriptClause(doc, s, b)
    case Failure(e) =>
    case Success(c) =>
      assert [c] + [] == [c];
      assert ScriptClauses(doc, s, [b]) == Success([c]);
  }

  // ---- A typed catch whose body is closed -------------------------------

  const Typed := "}catch(a.B e){}"

  function TypedBounds(): seq<nat>
  {
    [0, 1, 1, 6, 6, 7, 7, 10, 11, 12, 12, 12, 13, 13, 14]
  }

  lemma TypedText(t: seq<char>)
    requires t == Typed
    ensures |t| == 15 && t[1..6] == "catch" && t[7..10] == "a.B" && t[11..12] == "e"
    ensures InDocument(t, Scope(0, t)) && !StartsLine(t, 15)
    ensures ClosingOffset(t, 14) == 15
  {
    assert t[0..|t|] == t;
    assert t[14..15] == ['}'];
    assert Closes(t, 14, 15);
    ClosingOffsetUnique(t, 14, 15);
  }

  lemma TypedFitsTail(t: seq<char>)
    requires t == Typed
    ensures Fits(t, P7, [10] + ([11] + ([12] + ([12] + ([12] + ([13] + ([13] + ([14]))))))))
  {
    assert Fits(t, P10.rest.rest.rest, [13] + ([14]));
    assert Fits(t, P10, [12] + ([12] + ([13] + ([13] + ([14])))));
  }

  lemma TypedFits(t: seq<char>)
    requires t == Typed
    ensures Fits(t, CatchHeader, [0] + ([1] + ([1] + ([6] + ([6] + ([7] + ([7] + ([10] + ([11] + ([12] + ([12] + ([12] + ([13] + ([13] + ([14])))))))))))))))
  {
    TypedText(t);
    KeywordAt(t, 1);
    TypedFitsTail(t);
    assert Fits(t, P4, [6] + ([7] + ([7] + ([10] + ([11] + ([12] + ([12] + ([12] + ([13] + ([13] + ([14])))))))))));
    assert Fits(t, P2, [1] + ([6] + ([6] + ([7] + ([7] + ([10] + ([11] + ([12] + ([12] + ([12] + ([13] + ([13] + ([14])))))))))))));
  }

  lemma TypedHeader(t: seq<char>)
    requires t == Typed
    ensures IsHeader(t, TypedBounds())
  {
    assert TypedBounds() == [0] + ([1] + ([1] + ([6] + ([6] + ([7] + ([7] + ([10] + ([11] + ([12] + ([12] + ([12] + ([13] + ([13] + ([14]))))))))))))));
    TypedFits(t);
  }

  lemma TypedGroups(t: seq<char>)
    requires t == Typed
    ensures IsHeader(t, TypedBounds()) && InDocument(t, Scope(0, t))
    ensures TypeGroup(t, TypedBounds()) == "a.B" && NameGroup(t, TypedBounds()) == "e"
    ensures BodyStart(Scope(0, t), TypedBounds()) == 14
  {
    TypedText(t);
    TypedHeader(t);
    assert TypeGroup(t, TypedBounds()) == t[7..10];
    assert NameGroup(t, TypedBounds()) == t[11..12];
  }

  lemma TypedClause(t: seq<char>)
    requires t == Typed
    ensures IsHeader(t, TypedBounds()) && InDocument(t, Scope(0, t))
    ensures ScriptClause(t, Scope(0, t), TypedBounds()) == Success(CatchInfo("a.B", "e", Range(14, 14)))
  {
    TypedText(t);
    TypedGroups(t);
  }

  /** A typed header with a closed, empty body: type `a.B`, variable `e`, body between the braces. */
  lemma TypedExample(t: seq<char>)
    requires t == Typed
    ensures ScriptCatches(t, None) == Success([CatchInfo("a.B", "e", Range(14, 14))])
  {
    TypedClause(t);
    OnlyHeader(t, TypedBounds());
    SingleClause(t, TypedBounds());
  }

  // ---- A block left open: at the end of the text, or before a final newline

  const OpenHeader := "}catch(a b){"

  /** The boundaries of `OpenHeader` at the start of any text that begins with it. */
  function OpenBounds(): seq<nat>
  {
    [0, 1, 1, 6, 6, 7, 7, 8, 9, 10, 10, 10, 11, 11, 12]
  }

  lemma OpenChars(t: seq<char>)
    requires |t| >= 12 && t[..12] == OpenHeader
    ensures t[0] == '}' && t[6] == '(' && t[7] == 'a' && t[8] == ' '
    ensures t[9] == 'b' && t[10] == ')' && t[11] == '{'
    ensures WordAt(t, 1, "catch")
    ensures t[7..8] == "a" && t[9..10] == "b"
    ensures InDocument(t, Scope(0, t))
  {
    assert t[1..6] == t[..12][1..6];
    KeywordAt(t, 1);
    assert t[0..|t|] == t;
    assert t[7..8] == t[..12][7..8];
    assert t[9..10] == t[..12][9..10];
  }

  lemma OpenFitsTail(t: seq<char>)
    requires |t| >= 12 && t[..12] == OpenHeader
    ensures Fits(t, P7, [8] + ([9] + ([10] + ([10] + ([10] + ([11] + ([11] + ([12]))))))))
  {
    OpenChars(t);
    assert Fits(t, P10.rest.rest.rest, [11] + ([12]));
    assert Fits(t, P10, [10] + ([10] + ([11] + ([11] + ([12])))));
  }

  lemma OpenFits(t: seq<char>)
    requires |t| >= 12 && t[..12] == OpenHeader
    ensures Fits(t, CatchHeader, [0] + ([1] + ([1] + ([6] + ([6] + ([7] + ([7] + ([8] + ([9] + ([10] + ([10] + ([10] + ([11] + ([11] + ([12])))))))))))))))
  {
    OpenChars(t);
    OpenFitsTail(t);
    assert Fits(t, P4, [6] + ([7] + ([7] + ([8] + ([9] + ([10] + ([10] + ([10] + ([11] + ([11] + ([12])))))))))));
    assert Fits(t, P2, [1] + ([6] + ([6] + ([7] + ([7] + ([8] + ([9] + ([10] + ([10] + ([10] + ([11] + ([11] + ([12])))))))))))));
  }

  lemma OpenGroups(t: seq<char>)
    requires |t| >= 12 && t[..12] == OpenHeader
    ensures IsHeader(t, OpenBounds()) && InDocument(t, Scope(0, t))
    ensures TypeGroup(t, OpenBounds()) == "a" && NameGroup(t, OpenBounds()) == "b"
    ensures BodyStart(Scope(0, t), OpenBounds()) == 12
  {
    OpenChars(t);
    assert OpenBounds() == [0] + ([1] + ([1] + ([6] + ([6] + ([7] + ([7] + ([8] + ([9] + ([10] + ([10] + ([10] + ([11] + ([11] + ([12]))))))))))))));
    OpenFits(t);
    assert TypeGroup(t, OpenBounds()) == t[7..8];
    assert NameGroup(t, OpenBounds()) == t[9..10];
  }

  /**
   * A header that ends the text: the block is never closed, the brace
   * matcher reports the end of the text, and the body range comes out
   * inverted and is swapped, so it covers the header's `{`.
   */
  lemma OpenAtEndText(t: seq<char>)
    requires t == OpenHeader
    ensures |t| == 12 && t[..12] == OpenHeader
    ensures ClosingOffset(t, 12) == 12 && !StartsLine(t, 12)
  {
    assert t[..12] == OpenHeader;
  }

  lemma OpenAtEndClause(t: seq<char>)
    requires t == OpenHeader
    ensures IsHeader(t, OpenBounds()) && InDocument(t, Scope(0, t))
    ensures ScriptClause(t, Scope(0, t), OpenBounds()) == Success(CatchInfo("a", "b", Range(11, 12)))
  {
    OpenAtEndText(t);
    OpenGroups(t);
  }

  lemma OpenAtEndExample(t: seq<char>)
    requires t == OpenHeader
    ensures ScriptCatches(t, None) == Success([CatchInfo("a", "b", Range(11, 12))])
  {
    OpenAtEndClause(t);
    OnlyHeader(t, OpenBounds());
    SingleClause(t, OpenBounds());
  }

  lemma NewlineText(t: seq<char>)
    requires t == OpenHeader + "\n"
    ensures |t| == 13 && t[..12] == OpenHeader
    ensures ClosingOffset(t, 12) == 13 && StartsLine(t, 13)
  {
    assert t[..12] == OpenHeader;
    assert t[12..13] == ['\n'];
    assert t[12..13][1..] == [];
    assert Net(t[12..13]) == 0;
    assert !Closes(t, 12, 13);
  }

  lemma NewlineClause(t: seq<char>)
    requires t == OpenHeader + "\n"
    ensures IsHeader(t, OpenBounds()) && InDocument(t, Scope(0, t))
    ensures ScriptClause(t, Scope(0, t), OpenBounds()) == Failure(NegativeColumn(13))
  {
    NewlineText(t);
    OpenGroups(t);
  }

  /**
   * The same header followed by a newline: the brace matcher reports the
   * start of the empty last line, column 0, and stepping back one column
   * from it throws.
   */
  lemma OpenThenNewlineExample(t: seq<char>)
    requires t == OpenHeader + "\n"
    ensures ScriptCatches(t, None) == Failure(NegativeColumn(13))
  {
    NewlineClause(t);
    OnlyHeader(t, OpenBounds());
    SingleClause(t, OpenBounds());
  }

  // ---- A catch without a type is not a match --------------------------

  const Untyped := "} catch (e) { }"

  lemma UntypedText(t: seq<char>)
    requires t == Untyped
    ensures |t| == 15 && t[2..7] == "catch"
  {
    assert t[2] == 'c' && t[3] == 'a' && t[4] == 't' && t[5] == 'c' && t[6] == 'h';
    assert t[2..7] == [t[2], t[3], t[4], t[5], t[6]];
  }

  /** After `(`, the single token `e` is followed by `)`, not by the whitespace the pattern requires. */
  lemma UntypedFailsAtType(t: seq<char>)
    requires t == Untyped
    ensures MatchFrom(t, 9, P5.rest).None?
  {
    var p7 := P7;
    RunEnd(t, 10, 10, Space);
    assert MatchFrom(t, 10, p7).None?;
    RunEnd(t, 9, 10, TypeChar);
  }

  lemma UntypedFailsAfterKeyword(t: seq<char>)
    requires t == Untyped
    ensures MatchFrom(t, 7, P3).None?
  {
    UntypedFailsAtType(t);
    RunEnd(t, 9, 9, Space);
    assert MatchFrom(t, 9, P5).None?;
    assert MatchFrom(t, 8, P4).None?;
    RunEnd(t, 7, 8, Space);
  }

  /** The keyword is preceded by one space, after the `}`. */
  lemma UntypedLead(t: seq<char>)
    requires t == Untyped
    ensures t[0] == '}' && SkipRun(t, 1, Space) == 2
  {
    assert InClass(t[1], Space) && !InClass(t[2], Space);
    RunEnd(t, 1, 2, Space);
  }

  lemma UntypedNoMatch(t: seq<char>)
    requires t == Untyped
    ensures MatchAt(t, 0).None?
  {
    UntypedText(t);
    KeywordAt(t, 2);
    UntypedFailsAfterKeyword(t);
    assert MatchFrom(t, 2, P2).None?;
    UntypedLead(t);
    assert MatchFrom(t, 1, CatchHeader.rest).None?;
  }

  /** Besides offset 0, `Untyped` has its only `}` too close to the end for a header. */
  lemma UntypedNoOtherMatch(t: seq<char>)
    requires t == Untyped
    ensures forall q :: 0 < q ==> !MatchesAt(t, q)
  {
    forall q | 0 < q && MatchesAt(t, q)
      ensures false
    {
      var b :| IsHeader(t, b) && b[0] == q;
      HeaderDelimiters(t, b);
    }
  }

  /**
   * `} catch (e) {` declares no type, and the pattern requires one: the
   * catch is not reported at all (it does not come out with type `any`).
   */
  lemma UntypedScan(t: seq<char>)
    requires t == Untyped
    ensures ScanFrom(t, 0) == []
  {
    UntypedNoMatch(t);
    NoMatchAt(t, 0);
    UntypedNoOtherMatch(t);
    NothingToScan(t);
  }

  lemma UntypedExample(t: seq<char>)
    requires t == Untyped
    ensures ScriptCatches(t, None) == Success([])
  {
    UntypedScan(t);
    assert ScopeOf(t, None) == Scope(0, t);
  }

  // ---- Tag mode -------------------------------------------------------

  /** A `cfcatch` tag without attributes catches `any` into `cfcatch`; one without a body adds nothing. */
  lemma TagDefaultsExample()
    ensures TagCatch(Tag("cfcatch", map[], false, Range(0, 9), Some(Range(9, 30))))
            == Some(CatchInfo("any", "cfcatch", Range(9, 30)))
    ensures TagCatches([Tag("cfcatch", map[], true, Range(0, 10), None)]) == []
  {
  }
}
