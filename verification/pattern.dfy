/**
 * Regular patterns without alternation, the fragment of ECMAScript regular
 * expressions that `scriptCatchPattern` uses: a list of elements, each a
 * single character of a class, a run of a class (`k*` or `k+`), or a word
 * compared without regard to ASCII letter case.
 *
 * `Fits` is the meaning of a pattern: a list of boundaries cutting the text
 * into one piece per element. `MatchFrom` is a greedy matcher that never
 * backtracks; `MatchFromComplete` shows that it finds every fit whenever the
 * pattern is `Deterministic`, that is, whenever no run could stop earlier and
 * still leave the rest of the pattern something to match.
 */
module Pattern {
  import opened Wrappers
  import opened Text

  datatype CharClass =
    | Exactly(c: char)      // one given character
    | Space                 // `\s`
    | TypeChar              // `[A-Za-z0-9_.$]`
    | NameStart             // `[_$a-zA-Z]`
    | NameChar              // `[$\w]`

  predicate InClass(c: char, k: CharClass)
  {
    match k
    case Exactly(d) => c == d
    case Space => IsSpace(c)
    case TypeChar => IsTypeChar(c)
    case NameStart => IsNameStart(c)
    case NameChar => IsNameChar(c)
  }

  datatype Elem =
    | One(k: CharClass)     // exactly one character of `k`
    | Star(k: CharClass)    // `k*`
    | Plus(k: CharClass)    // `k+`
    | Word(w: string)       // `w`, with ASCII letters in either case; `w` is lower case

  datatype Pat = End | Then(head: Elem, rest: Pat)

  /** Number of elements. */
  function Length(p: Pat): nat
  {
    match p
    case End => 0
    case Then(_, r) => 1 + Length(r)
  }

  /** Every character of `t[i..j]` is in class `k`. */
  predicate AllIn(t: seq<char>, i: nat, j: nat, k: CharClass)
    requires i <= j <= |t|
  {
    forall m {:trigger InClass(t[m], k)} :: i <= m < j ==> InClass(t[m], k)
  }

  /** A run extended by one character in the class at its front. */
  lemma AllInCons(t: seq<char>, i: nat, j: nat, k: CharClass)
    requires i < j <= |t| && InClass(t[i], k) && AllIn(t, i + 1, j, k)
    ensures AllIn(t, i, j, k)
  {
  }

  /** `t[i..i+|w|]` is `w` up to the case of ASCII letters. */
  predicate WordAt(t: seq<char>, i: nat, w: string)
  {
    i + |w| <= |t| && forall m :: 0 <= m < |w| ==> AsciiLower(t[i + m]) == w[m]
  }

  /** The end of the longest run of class-`k` characters starting at `i`. */
  function SkipRun(t: seq<char>, i: nat, k: CharClass): (j: nat)
    requires i <= |t|
    ensures i <= j <= |t|
    ensures AllIn(t, i, j, k)
    ensures j == |t| || !InClass(t[j], k)
    decreases |t| - i
  {
    if i < |t| && InClass(t[i], k) then SkipRun(t, i + 1, k) else i
  }

  /** A run that cannot be extended is the one `SkipRun` finds. */
  lemma RunEnd(t: seq<char>, i: nat, j: nat, k: CharClass)
    requires i <= j <= |t| && AllIn(t, i, j, k)
    requires j == |t| || !InClass(t[j], k)
    ensures SkipRun(t, i, k) == j
  {
  }

  /** Element `e` consumes exactly `t[i..j]`. */
  predicate ElemFits(t: seq<char>, e: Elem, i: nat, j: nat)
    requires i <= j <= |t|
  {
    match e
    case One(k) => j == i + 1 && InClass(t[i], k)
    case Star(k) => AllIn(t, i, j, k)
    case Plus(k) => i < j && AllIn(t, i, j, k)
    case Word(w) => j == i + |w| && WordAt(t, i, w)
  }

  /** The boundaries `b` cut a part of `t` starting at `b[0]` into one piece per element of `p`. */
  predicate Fits(t: seq<char>, p: Pat, b: seq<nat>)
  {
    match p
    case End => |b| == 1 && b[0] <= |t|
    case Then(e, r) =>
      && |b| >= 2 && b[0] <= b[1] <= |t|
      && ElemFits(t, e, b[0], b[1])
      && Fits(t, r, b[1..])
  }

  /** The element can match the empty string. */
  predicate ElemNullable(e: Elem)
  {
    e.Star? || (e.Word? && |e.w| == 0)
  }

  /** The pattern can match the empty string. */
  predicate Nullable(p: Pat)
  {
    match p
    case End => true
    case Then(e, r) => ElemNullable(e) && Nullable(r)
  }

  /** A match of the element can begin with `c`. */
  predicate ElemCanStart(e: Elem, c: char)
  {
    match e
    case Word(w) => |w| > 0 && AsciiLower(c) == w[0]
    case _ => InClass(c, e.k)
  }

  /** A match of the pattern can begin with `c`. */
  predicate CanStart(p: Pat, c: char)
  {
    match p
    case End => false
    case Then(e, r) => ElemCanStart(e, c) || (ElemNullable(e) && CanStart(r, c))
  }

  /** The element can consume the character `c` somewhere. */
  predicate ElemCanHold(e: Elem, c: char)
  {
    match e
    case Word(w) => AsciiLower(c) in w
    case _ => InClass(c, e.k)
  }

  /** Some element of the pattern can consume the character `c`. */
  predicate CanHold(p: Pat, c: char)
  {
    match p
    case End => false
    case Then(e, r) => ElemCanHold(e, c) || CanHold(r, c)
  }

  /**
   * Greedy matching is exact: every run is followed by a part of the pattern
   * that must consume at least one character and cannot begin with a
   * character of the run's class.
   */
  predicate Deterministic(p: Pat)
  {
    match p
    case End => true
    case Then(e, r) =>
      && ((e.Star? || e.Plus?) ==> !Nullable(r) && forall c :: InClass(c, e.k) ==> !CanStart(r, c))
      && Deterministic(r)
  }

  /** The least number of characters a match consumes. */
  function MinLength(p: Pat): nat
  {
    match p
    case End => 0
    case Then(e, r) =>
      (match e
       case One(_) => 1
       case Star(_) => 0
       case Plus(_) => 1
       case Word(w) => |w|) + MinLength(r)
  }

  /** Where the greedy match of element `e` at `pos` ends, if it matches. */
  function Step(t: seq<char>, pos: nat, e: Elem): (r: Option<nat>)
    requires pos <= |t|
    ensures r.Some? ==> pos <= r.value <= |t| && ElemFits(t, e, pos, r.value)
  {
    match e
    case One(k) => if pos < |t| && InClass(t[pos], k) then Some(pos + 1) else None
    case Star(k) => Some(SkipRun(t, pos, k))
    case Plus(k) => var j := SkipRun(t, pos, k); if j == pos then None else Some(j)
    case Word(w) => if WordAt(t, pos, w) then Some(pos + |w|) else None
  }

  /** The greedy matcher anchored at `pos`: the boundaries it finds, if any. */
  function MatchFrom(t: seq<char>, pos: nat, p: Pat): (r: Option<seq<nat>>)
    requires pos <= |t|
    ensures r.Some? ==> Fits(t, p, r.value) && r.value[0] == pos
    decreases p
  {
    match p
    case End => Some([pos])
    case Then(e, rest) =>
      match Step(t, pos, e)
      case None => None
      case Some(next) =>
        match MatchFrom(t, next, rest)
        case None => None
        case Some(b) =>
          assert ([pos] + b)[1..] == b;
          Some([pos] + b)
  }

  /** A fit has one boundary more than the pattern has elements; the boundaries never decrease. */
  lemma {:induction false} FitsBounds(t: seq<char>, p: Pat, b: seq<nat>)
    requires Fits(t, p, b)
    ensures |b| == Length(p) + 1
    ensures forall i, j :: 0 <= i <= j < |b| ==> b[i] <= b[j] <= |t|
    ensures b[0] + MinLength(p) <= b[Length(p)]
  {
    match p
    case End =>
    case Then(e, r) =>
      FitsBounds(t, r, b[1..]);
      forall i, j | 0 <= i <= j < |b|
        ensures b[i] <= b[j] <= |t|
      {
        if 0 < i {
          assert b[i] == b[1..][i - 1] && b[j] == b[1..][j - 1];
        } else if 0 < j {
          assert b[j] == b[1..][j - 1];
        }
      }
      assert b[Length(p)] == b[1..][Length(r)];
  }

  /** Every character a fit consumes can be held by some element of the pattern. */
  lemma {:induction false} FitsHold(t: seq<char>, p: Pat, b: seq<nat>, q: nat)
    requires Fits(t, p, b) && b[0] <= q < b[|b| - 1]
    ensures q < |t| && CanHold(p, t[q])
  {
    match p
    case End =>
    case Then(e, r) =>
      FitsBounds(t, r, b[1..]);
      if q < b[1] {
        match e
        case Word(w) =>
          assert AsciiLower(t[b[0] + (q - b[0])]) == w[q - b[0]];
        case One(k) =>
        case Star(k) => assert InClass(t[q], k);
        case Plus(k) => assert InClass(t[q], k);
      } else {
        FitsHold(t, r, b[1..], q);
      }
  }

  /** A pattern that is not nullable consumes a first character, one it can begin with. */
  lemma {:induction false} FirstChar(t: seq<char>, p: Pat, b: seq<nat>)
    requires Fits(t, p, b) && !Nullable(p)
    ensures b[0] < |t| && CanStart(p, t[b[0]])
  {
    match p
    case Then(e, r) =>
      if b[0] == b[1] {
        FirstChar(t, r, b[1..]);
      } else {
        match e
        case Word(w) => assert AsciiLower(t[b[0] + 0]) == w[0];
        case One(k) =>
        case Star(k) => assert InClass(t[b[0]], k);
        case Plus(k) => assert InClass(t[b[0]], k);
      }
  }

  /**
   * For a deterministic pattern the greedy matcher loses nothing: every fit
   * is the one `MatchFrom` finds, so a fit at a given start is unique.
   */
  lemma {:induction false} MatchFromComplete(t: seq<char>, p: Pat, b: seq<nat>)
    requires Fits(t, p, b) && Deterministic(p)
    ensures MatchFrom(t, b[0], p) == Some(b)
  {
    match p
    case End =>
      assert b == [b[0]];
    case Then(e, r) =>
      MatchFromComplete(t, r, b[1..]);
      if e.Star? || e.Plus? {
        FirstChar(t, r, b[1..]);
        RunEnd(t, b[0], b[1], e.k);
      }
      assert Step(t, b[0], e) == Some(b[1]);
      assert [b[0]] + b[1..] == b;
  }
}
