/**
 * The script-mode catch-clause pattern `scriptCatchPattern` of
 * src/entities/catch.ts and the scan that applies it repeatedly:
 *
 *   `}` ws* `catch` ws* `(` ws* TYPE ws+ NAME ws* `)` ws* `{`
 *
 * with `catch` in any letter case, TYPE (capture group 1) a non-empty run of
 * `[A-Za-z0-9_.$]` and NAME (capture group 2) `[_$a-zA-Z][$A-Za-z0-9_]*`.
 * A match is represented by its boundaries: `b[i]..b[i+1]` is the piece of
 * text consumed by element `i` of `CatchHeader`.
 */
module CatchPattern {
  import opened Wrappers
  import opened Text
  import opened Pattern

  /** The pattern, element by element; the comments give each element's index. */
  const CatchHeader: Pat :=
    Then(One(Exactly('}')),          // 0
    Then(Star(Space),                // 1
    Then(Word("catch"),              // 2
    Then(Star(Space),                // 3
    Then(One(Exactly('(')),          // 4
    Then(Star(Space),                // 5
    Then(Plus(TypeChar),             // 6: group 1
    Then(Plus(Space),                // 7
    Then(One(NameStart),             // 8: group 2 ...
    Then(Star(NameChar),             // 9: ... group 2
    Then(Star(Space),                // 10
    Then(One(Exactly(')')),          // 11
    Then(Star(Space),                // 12
    Then(One(Exactly('{')),          // 13
    End))))))))))))))

  /** Boundary indices of the two capture groups and of the end of a match. */
  const TypeFrom := 6
  const TypeTo := 7
  const NameFrom := 8
  const NameTo := 10
  const Last := 14

  /** `b` are the boundaries of a match of the pattern in `t`. */
  predicate IsHeader(t: seq<char>, b: seq<nat>)
  {
    Fits(t, CatchHeader, b)
  }

  /** The i-th element of a pattern. */
  function Nth(p: Pat, i: nat): Elem
    requires i < Length(p)
  {
    if i == 0 then p.head else Nth(p.rest, i - 1)
  }

  lemma {:induction false} FitsNth(t: seq<char>, p: Pat, b: seq<nat>, i: nat)
    requires Fits(t, p, b) && i < Length(p)
    ensures i + 1 < |b| && b[i] <= b[i + 1] <= |t|
    ensures ElemFits(t, Nth(p, i), b[i], b[i + 1])
    decreases i
  {
    FitsBounds(t, p, b);
    if 0 < i {
      FitsNth(t, p.rest, b[1..], i - 1);
    }
  }

  /** The part of the pattern after the variable name is deterministic. */
  lemma CloseDeterministic()
    ensures Deterministic(CatchHeader.rest.rest.rest.rest.rest.rest.rest.rest.rest.rest)
  {
    var p10 := CatchHeader.rest.rest.rest.rest.rest.rest.rest.rest.rest.rest;
    var p11 := p10.rest;
    var p12 := p11.rest;
    var p13 := p12.rest;
    var p14 := p13.rest;
    assert Deterministic(p14);
    assert Deterministic(p13);
    assert Deterministic(p12);
    assert Deterministic(p11);
    assert Deterministic(p10);
  }

  /** The run of name characters stops where the pattern needs white space or `)`. */
  lemma NameDeterministic()
    ensures Deterministic(CatchHeader.rest.rest.rest.rest.rest.rest.rest.rest.rest)
  {
    CloseDeterministic();
  }

  /** The part of the pattern after the type token is deterministic. */
  lemma AfterTypeDeterministic()
    ensures Deterministic(CatchHeader.rest.rest.rest.rest.rest.rest.rest)
  {
    NameDeterministic();
    var p7 := CatchHeader.rest.rest.rest.rest.rest.rest.rest;
    assert Deterministic(p7.rest);
  }

  /** The pattern never needs backtracking, so the greedy matcher finds its one match. */
  lemma CatchHeaderDeterministic()
    ensures Deterministic(CatchHeader)
  {
    AfterTypeDeterministic();
    var p0 := CatchHeader;
    var p1 := p0.rest;
    var p2 := p1.rest;
    var p3 := p2.rest;
    var p4 := p3.rest;
    var p5 := p4.rest;
    var p6 := p5.rest;
    var p7 := p6.rest;
    assert Deterministic(p6);
    assert Deterministic(p5);
    assert Deterministic(p4);
    assert Deterministic(p3);
    assert Deterministic(p2);
    assert Deterministic(p1);
    assert Deterministic(p0);
  }

  /** Twelve characters is the shortest match (`}catch(a b){`), and only its first character is a `}`. */
  lemma CatchHeaderShape()
    ensures Length(CatchHeader) == Last
    ensures MinLength(CatchHeader) == 12
    ensures !CanHold(CatchHeader.rest, '}')
  {
    var p0 := CatchHeader;
    var p7 := p0.rest.rest.rest.rest.rest.rest.rest;
    assert !CanHold(p7, '}');
    assert !CanHold(p0.rest, '}');
  }

  /** A non-empty type token: every character in `[A-Za-z0-9_.$]`. */
  predicate IsTypeToken(s: seq<char>)
  {
    |s| > 0 && forall i :: 0 <= i < |s| ==> IsTypeChar(s[i])
  }

  /** An identifier `[_$a-zA-Z][$A-Za-z0-9_]*`. */
  predicate IsIdentifier(s: seq<char>)
  {
    |s| > 0 && IsNameStart(s[0]) && forall i :: 1 <= i < |s| ==> IsNameChar(s[i])
  }

  /** `s` spells `catch` in any mixture of letter case. */
  predicate IsCatchKeyword(s: seq<char>)
  {
    |s| == 5 && forall i :: 0 <= i < 5 ==> AsciiLower(s[i]) == "catch"[i]
  }

  lemma TypeTokenOfRun(t: seq<char>, i: nat, j: nat)
    requires i < j <= |t| && AllIn(t, i, j, TypeChar)
    ensures IsTypeToken(t[i..j])
  {
    forall m | 0 <= m < j - i
      ensures IsTypeChar(t[i..j][m])
    {
      assert InClass(t[i + m], TypeChar);
    }
  }

  lemma IdentifierOfRun(t: seq<char>, i: nat, j: nat)
    requires i < j <= |t| && IsNameStart(t[i]) && AllIn(t, i + 1, j, NameChar)
    ensures IsIdentifier(t[i..j])
  {
    forall m | 1 <= m < j - i
      ensures IsNameChar(t[i..j][m])
    {
      assert InClass(t[i + m], NameChar);
    }
  }

  /** Where a match sits in the text, and how long it is at least. */
  lemma HeaderBounds(t: seq<char>, b: seq<nat>)
    requires IsHeader(t, b)
    ensures |b| == Last + 1
    ensures forall i, j :: 0 <= i <= j <= Last ==> b[i] <= b[j] <= |t|
    ensures b[0] + 12 <= b[Last]
  {
    CatchHeaderShape();
    FitsBounds(t, CatchHeader, b);
  }

  /** A match begins with `}`, then `catch` in any letter case; it ends with `{`. */
  lemma HeaderDelimiters(t: seq<char>, b: seq<nat>)
    requires IsHeader(t, b)
    ensures |b| == Last + 1 && b[0] < b[1] <= b[2] <= b[3] <= b[Last] <= |t|
    ensures t[b[0]] == '}'
    ensures IsCatchKeyword(t[b[2]..b[3]])
    ensures b[Last] == b[13] + 1 && t[b[13]] == '{'
  {
    HeaderBounds(t, b);
    FitsNth(t, CatchHeader, b, 0);
    FitsNth(t, CatchHeader, b, 2);
    assert forall m :: 0 <= m < 5 ==> AsciiLower(t[b[2] + m]) == "catch"[m];
    FitsNth(t, CatchHeader, b, 13);
  }

  /** The first capture group is a type token and the second an identifier. */
  lemma HeaderGroups(t: seq<char>, b: seq<nat>)
    requires IsHeader(t, b)
    ensures |b| == Last + 1 && b[TypeFrom] < b[TypeTo] <= b[NameFrom] < b[NameTo] <= |t|
    ensures IsTypeToken(t[b[TypeFrom]..b[TypeTo]])
    ensures IsIdentifier(t[b[NameFrom]..b[NameTo]])
  {
    HeaderBounds(t, b);
    FitsNth(t, CatchHeader, b, 6);
    TypeTokenOfRun(t, b[6], b[7]);
    FitsNth(t, CatchHeader, b, 8);
    FitsNth(t, CatchHeader, b, 9);
    IdentifierOfRun(t, b[8], b[10]);
  }

  /** The pattern matches at offset `q`. */
  ghost predicate MatchesAt(t: seq<char>, q: nat)
  {
    exists b :: IsHeader(t, b) && b[0] == q
  }

  /** The pattern anchored at `p`: the boundaries of its match there, if any. */
  function MatchAt(t: seq<char>, p: nat): (r: Option<seq<nat>>)
    ensures r.Some? ==> IsHeader(t, r.value) && r.value[0] == p
  {
    if p <= |t| then MatchFrom(t, p, CatchHeader) else None
  }

  /** `MatchAt` decides the pattern: it returns exactly the match at `p`, which is unique. */
  lemma MatchAtIff(t: seq<char>, p: nat, b: seq<nat>)
    ensures MatchAt(t, p) == Some(b) <==> IsHeader(t, b) && b[0] == p
  {
    if IsHeader(t, b) && b[0] == p {
      HeaderBounds(t, b);
      CatchHeaderDeterministic();
      MatchFromComplete(t, CatchHeader, b);
    }
  }

  /** Where `MatchAt` fails the pattern does not match at all. */
  lemma NoMatchAt(t: seq<char>, q: nat)
    requires MatchAt(t, q).None?
    ensures !MatchesAt(t, q)
  {
    forall b | IsHeader(t, b) && b[0] == q
      ensures false
    {
      MatchAtIff(t, q, b);
    }
  }

  /** A match leaves room for its twelve characters. */
  lemma MatchInText(t: seq<char>, q: nat)
    requires MatchesAt(t, q)
    ensures q + 12 <= |t|
  {
    var b :| IsHeader(t, b) && b[0] == q;
    HeaderBounds(t, b);
  }

  /** Inside a match no other match can start: its only `}` is its first character. */
  lemma NoMatchInside(t: seq<char>, b: seq<nat>, q: nat)
    requires IsHeader(t, b) && b[0] < q < b[|b| - 1]
    ensures !MatchesAt(t, q)
  {
    HeaderBounds(t, b);
    CatchHeaderShape();
    FitsHold(t, CatchHeader.rest, b[1..], q);
    forall b' | IsHeader(t, b') && b'[0] == q
      ensures false
    {
      HeaderDelimiters(t, b');
    }
  }

  /**
   * One `exec` of the global pattern with `lastIndex` at `i`: the leftmost
   * match that starts at or after `i`.
   */
  function FindFrom(t: seq<char>, i: nat): (r: Option<seq<nat>>)
    requires i <= |t|
    ensures r.Some? ==> IsHeader(t, r.value) && i <= r.value[0]
    ensures r.Some? ==> forall q :: i <= q < r.value[0] ==> !MatchesAt(t, q)
    ensures r.None? ==> forall q :: i <= q ==> !MatchesAt(t, q)
    decreases |t| - i
  {
    match MatchAt(t, i)
    case Some(b) => Some(b)
    case None =>
      NoMatchAt(t, i);
      if i == |t| then
        forall q | i < q
          ensures !MatchesAt(t, q)
        {
          if MatchesAt(t, q) {
            MatchInText(t, q);
          }
        }
        None
      else
        FindFrom(t, i + 1)
  }

  /** Capture group 1 of a header: the exception type. */
  function TypeGroup(t: seq<char>, b: seq<nat>): (r: string)
    requires IsHeader(t, b)
    ensures IsTypeToken(r)
  {
    HeaderGroups(t, b);
    t[b[TypeFrom]..b[TypeTo]]
  }

  /** Capture group 2 of a header: the catch variable. */
  function NameGroup(t: seq<char>, b: seq<nat>): (r: string)
    requires IsHeader(t, b)
    ensures IsIdentifier(r)
  {
    HeaderGroups(t, b);
    t[b[NameFrom]..b[NameTo]]
  }

  /** The offset just past a match: `match.index + match[0].length`. */
  function MatchEnd(b: seq<nat>): nat
    requires |b| > 0
  {
    b[|b| - 1]
  }

  /**
   * The `while (match = pattern.exec(text))` loop from `lastIndex` `i`: each
   * match is followed by a search from the end of that match.
   */
  function ScanFrom(t: seq<char>, i: nat): (ms: seq<seq<nat>>)
    requires i <= |t|
    ensures forall k :: 0 <= k < |ms| ==> |ms[k]| == Last + 1 && IsHeader(t, ms[k]) && i <= ms[k][0]
    ensures forall j, k :: 0 <= j < k < |ms| ==> MatchEnd(ms[j]) <= ms[k][0]
    decreases |t| - i
  {
    match FindFrom(t, i)
    case None => []
    case Some(b) =>
      HeaderBounds(t, b);
      var rest := ScanFrom(t, MatchEnd(b));
      ScanCons(t, i, b, rest);
      [b] + rest
  }

  /** A match followed by the matches found after it is again an ordered list of matches from `i`. */
  lemma ScanCons(t: seq<char>, i: nat, b: seq<nat>, rest: seq<seq<nat>>)
    requires |b| == Last + 1 && IsHeader(t, b) && i <= b[0] <= MatchEnd(b)
    requires forall k :: 0 <= k < |rest| ==> |rest[k]| == Last + 1 && IsHeader(t, rest[k]) && MatchEnd(b) <= rest[k][0]
    requires forall j, k :: 0 <= j < k < |rest| ==> MatchEnd(rest[j]) <= rest[k][0]
    ensures forall k :: 0 <= k < |[b] + rest| ==> |([b] + rest)[k]| == Last + 1 && IsHeader(t, ([b] + rest)[k]) && i <= ([b] + rest)[k][0]
    ensures forall j, k :: 0 <= j < k < |[b] + rest| ==> MatchEnd(([b] + rest)[j]) <= ([b] + rest)[k][0]
  {
    var ms := [b] + rest;
    assert forall k :: 0 < k < |ms| ==> ms[k] == rest[k - 1];
  }

  /**
   * The scan finds exactly the matches: every offset from `i` on at which
   * the pattern matches is the start of one of the matches it reports.
   */
  lemma {:induction false} ScanComplete(t: seq<char>, i: nat, q: nat)
    requires i <= |t| && i <= q && MatchesAt(t, q)
    ensures exists k :: 0 <= k < |ScanFrom(t, i)| && ScanFrom(t, i)[k][0] == q
    decreases |t| - i
  {
    var ms := ScanFrom(t, i);
    match FindFrom(t, i)
    case None =>
    case Some(b) =>
      HeaderBounds(t, b);
      assert ms == [b] + ScanFrom(t, MatchEnd(b));
      if q == b[0] {
        assert ms[0][0] == q;
      } else if q < MatchEnd(b) {
        NoMatchInside(t, b, q);
      } else {
        ScanComplete(t, MatchEnd(b), q);
        var k :| 0 <= k < |ScanFrom(t, MatchEnd(b))| && ScanFrom(t, MatchEnd(b))[k][0] == q;
        assert ms[k + 1][0] == q;
      }
  }
}
