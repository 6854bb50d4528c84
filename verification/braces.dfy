/**
 * The brace matcher used for script-mode catch bodies (`getClosingPosition`
 * with `"}"`). Its source is not part of this model; it is modelled as a
 * depth counter: starting just after an opening `{`, keep a counter seeded
 * at 1, add one at every `{` and subtract one at every `}`, and stop just
 * after the `}` that brings the depth to 0; with no such `}`, return the end
 * of the text.
 */
module Braces {

  /** The change a character makes to the brace depth. */
  function Delta(c: char): int
  {
    if c == '{' then 1 else if c == '}' then -1 else 0
  }

  /** Net brace depth change over `s`: opening braces minus closing braces. */
  function Net(s: seq<char>): int
  {
    if |s| == 0 then 0 else Delta(s[0]) + Net(s[1..])
  }

  lemma NetCons(t: seq<char>, i: nat, k: nat)
    requires i < k <= |t|
    ensures Net(t[i..k]) == Delta(t[i]) + Net(t[i + 1..k])
  {
    assert t[i..k][1..] == t[i + 1..k];
  }

  lemma {:induction false} NetSnoc(s: seq<char>, c: char)
    ensures Net(s + [c]) == Net(s) + Delta(c)
  {
    if |s| == 0 {
      assert (s + [c])[1..] == [];
    } else {
      assert (s + [c])[1..] == s[1..] + [c];
      NetSnoc(s[1..], c);
    }
  }

  /** `c` is just after the `}` that closes the block whose body starts at `b`. */
  predicate Closes(t: seq<char>, b: nat, c: nat)
  {
    && b < c <= |t|
    && 1 + Net(t[b..c]) == 0
    && forall k :: b <= k < c ==> 1 + Net(t[b..k]) > 0
  }

  /** No `}` after `b` closes the block whose body starts at `b`. */
  predicate NeverCloses(t: seq<char>, b: nat)
    requires b <= |t|
  {
    forall k :: b <= k <= |t| ==> 1 + Net(t[b..k]) > 0
  }

  /** The scan from offset `i` at depth `d`. */
  function CloseFrom(t: seq<char>, i: nat, d: nat): (r: nat)
    requires i <= |t| && d >= 1
    ensures i <= r <= |t|
    ensures forall k :: i <= k < r ==> d + Net(t[i..k]) > 0
    ensures (i < r && d + Net(t[i..r]) == 0) || (r == |t| && d + Net(t[i..r]) > 0)
    decreases |t| - i
  {
    if i == |t| then
      |t|
    else if t[i] == '}' && d == 1 then
      NetCons(t, i, i + 1);
      i + 1
    else
      var d' := if t[i] == '{' then d + 1 else if t[i] == '}' then d - 1 else d;
      var r := CloseFrom(t, i + 1, d');
      assert d' == d + Delta(t[i]);
      forall k | i < k <= r
        ensures d + Net(t[i..k]) == d' + Net(t[i + 1..k])
      {
        NetCons(t, i, k);
      }
      r
  }

  /**
   * `getClosingPosition(context, b, "}")` as an offset: just after the
   * matching `}`, or the end of the text when the block is unterminated.
   */
  function ClosingOffset(t: seq<char>, b: nat): (r: nat)
    requires b <= |t|
    ensures b <= r <= |t|
    ensures Closes(t, b, r) || (r == |t| && NeverCloses(t, b))
  {
    CloseFrom(t, b, 1)
  }

  /** The closing offset is the only offset that closes the block. */
  lemma ClosingOffsetUnique(t: seq<char>, b: nat, c: nat)
    requires b <= |t| && Closes(t, b, c)
    ensures ClosingOffset(t, b) == c
  {
  }

  /**
   * A closed body is a balanced brace sequence: it ends just before a `}`,
   * its opening and closing braces cancel out, and no prefix of it closes
   * more braces than it opens.
   */
  lemma {:induction false} ClosedBodyBalanced(t: seq<char>, b: nat, c: nat)
    requires Closes(t, b, c)
    ensures t[c - 1] == '}'
    ensures Net(t[b..c - 1]) == 0
    ensures forall k :: b <= k <= c - 1 ==> Net(t[b..k]) >= 0
  {
    assert t[b..c] == t[b..c - 1] + [t[c - 1]];
    NetSnoc(t[b..c - 1], t[c - 1]);
    assert 1 + Net(t[b..c - 1]) > 0;
  }
}
