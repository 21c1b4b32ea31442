/** The running bracket count: `[` counts +1, `]` counts -1, every other symbol 0.
    The balance check and the skip over a loop whose cell is zero both look for the
    first point where this count, taken from some start, drops below zero. */
module Brackets {

  datatype Option<T> = None | Some(value: T)

  /** What the balance check reports. */
  datatype BracketCheck =
    | Matched
    | UnmatchedClose(at: nat)   // the `]` at which the count first went negative
    | UnmatchedOpen             // the count stayed non-negative but ended above zero

  /** The contribution of one symbol to the count. */
  function Delta(c: char): int
  {
    if c == '[' then 1 else if c == ']' then -1 else 0
  }

  /** The count over the whole of `s`: opened minus closed brackets. */
  function Depth(s: seq<char>): int
  {
    if s == [] then 0 else Depth(s[..|s| - 1]) + Delta(s[|s| - 1])
  }

  lemma DepthStep(s: seq<char>, i: nat)
    requires i < |s|
    ensures Depth(s[..i + 1]) == Depth(s[..i]) + Delta(s[i])
  {
    assert s[..i + 1][..i] == s[..i];
  }

  /** The count is additive over concatenation. */
  lemma {:induction false} DepthConcat(a: seq<char>, b: seq<char>)
    ensures Depth(a + b) == Depth(a) + Depth(b)
    decreases |b|
  {
    if b == [] {
      assert a + b == a;
    } else {
      var front := b[..|b| - 1];
      assert (a + b)[..|a + b| - 1] == a + front;
      DepthConcat(a, front);
    }
  }

  /** No prefix of `s` closes more brackets than it opens. */
  predicate NeverNegative(s: seq<char>)
  {
    forall k :: 0 <= k <= |s| ==> Depth(s[..k]) >= 0
  }

  /** Every `]` closes an earlier `[` and every `[` is closed. */
  predicate Balanced(s: seq<char>)
  {
    NeverNegative(s) && Depth(s) == 0
  }

  /** Text without brackets (comments and the six other instructions) is balanced:
      its count is zero on every prefix. */
  lemma {:induction false} NoBracketsBalanced(s: seq<char>)
    requires forall i :: 0 <= i < |s| ==> s[i] != '[' && s[i] != ']'
    ensures forall k :: 0 <= k <= |s| ==> Depth(s[..k]) == 0
    ensures Balanced(s)
    decreases |s|
  {
    if s != [] {
      var front := s[..|s| - 1];
      NoBracketsBalanced(front);
      forall k | 0 <= k <= |s|
        ensures Depth(s[..k]) == 0
      {
        if k < |s| {
          assert s[..k] == front[..k];
        } else {
          assert s[..k] == s && s[..k][..|s| - 1] == front;
          assert front[..|front|] == front;
        }
      }
      assert s[..|s|] == s;
    }
  }

  /** Position `m` of `t` is where the count first drops below zero. */
  predicate DipsAt(t: seq<char>, m: int)
  {
    0 <= m < |t| && Depth(t[..m + 1]) < 0 &&
    forall k :: 0 <= k <= m ==> Depth(t[..k]) >= 0
  }

  /** The first dip can only happen on a `]` that brings the count from 0 to -1. */
  lemma DipIsClose(t: seq<char>, m: int)
    requires DipsAt(t, m)
    ensures t[m] == ']' && Depth(t[..m]) == 0 && Depth(t[..m + 1]) == -1
  {
    DepthStep(t, m);
  }

  lemma DipUnique(t: seq<char>, m: int, n: int)
    requires DipsAt(t, m) && DipsAt(t, n)
    ensures m == n
  {
  }

  /** A dip at `m` is the one the scan finds. */
  lemma FirstDipIs(t: seq<char>, m: int)
    requires DipsAt(t, m)
    ensures FirstDip(t) == Some(m)
  {
    assert !NeverNegative(t) by {
      assert Depth(t[..m + 1]) < 0;
    }
    DipUnique(t, m, FirstDip(t).value);
  }

  /** Scan `t` from position `m`, where the count so far is `count`, for the first dip. */
  function DipFrom(t: seq<char>, m: nat, count: int): (r: Option<nat>)
    requires m <= |t| && count == Depth(t[..m])
    requires forall k :: 0 <= k <= m ==> Depth(t[..k]) >= 0
    ensures r.Some? ==> m <= r.value && DipsAt(t, r.value)
    ensures r.None? ==> NeverNegative(t)
    decreases |t| - m
  {
    if m == |t| then None
    else
      DepthStep(t, m);
      var next := count + Delta(t[m]);
      if next < 0 then Some(m) else DipFrom(t, m + 1, next)
  }

  /** The first position at which the count of `t` goes negative, if any. */
  function FirstDip(t: seq<char>): (r: Option<nat>)
    ensures r.Some? ==> DipsAt(t, r.value)
    ensures r.None? <==> NeverNegative(t)
  {
    assert t[..0] == [];
    var r := DipFrom(t, 0, 0);
    if r.Some? then DipIsClose(t, r.value); r else r
  }

  /** The verdict of the balance check, as a specification. */
  function Check(s: seq<char>): (r: BracketCheck)
    ensures r.Matched? <==> Balanced(s)
    ensures r.UnmatchedClose? ==> DipsAt(s, r.at) && s[r.at] == ']'
    ensures r.UnmatchedOpen? ==> NeverNegative(s) && Depth(s) > 0
  {
    assert s[..|s|] == s;
    match FirstDip(s)
    case Some(i) => DipIsClose(s, i); UnmatchedClose(i)
    case None => if Depth(s) == 0 then Matched else UnmatchedOpen
  }

  /** In a balanced program every `[` has a matching `]` after it: the scan that
      starts just after it dips. */
  lemma MatchExists(s: seq<char>, i: nat)
    requires Balanced(s) && i < |s| && s[i] == '['
    ensures FirstDip(s[i + 1..]).Some?
  {
    var t := s[i + 1..];
    DepthStep(s, i);
    assert s == s[..i + 1] + t;
    DepthConcat(s[..i + 1], t);
    assert t[..|t|] == t;
    assert Depth(t[..|t|]) < 0;
  }

  /** Skipping from the `[` at `i` to its matching `]` returns the count to what it
      was just before the `[`. */
  lemma SkipDepth(s: seq<char>, i: nat, m: nat)
    requires i < |s| && s[i] == '[' && DipsAt(s[i + 1..], m)
    ensures i + 1 + m < |s| && s[i + 1 + m] == ']'
    ensures Depth(s[..i + m + 2]) == Depth(s[..i])
  {
    var t := s[i + 1..];
    DipIsClose(t, m);
    DepthStep(s, i);
    assert s[..i + m + 2] == s[..i + 1] + t[..m + 1];
    DepthConcat(s[..i + 1], t[..m + 1]);
  }

  /** The count up to `a + q` is the count up to `a` plus the count of the next `q`
      symbols. */
  lemma DepthSplit(s: seq<char>, a: nat, q: nat)
    requires a + q <= |s|
    ensures Depth(s[..a + q]) == Depth(s[..a]) + Depth(s[a..][..q])
  {
    assert s[..a + q] == s[..a] + s[a..][..q];
    DepthConcat(s[..a], s[a..][..q]);
  }

  /** Strictly inside a skipped loop the count stays above its value before the `[`. */
  lemma SkipInside(s: seq<char>, i: nat, m: nat)
    requires i < |s| && s[i] == '[' && DipsAt(s[i + 1..], m)
    ensures forall j :: i < j <= i + m + 1 ==> Depth(s[..j]) > Depth(s[..i])
  {
    DepthStep(s, i);
    forall j | i < j <= i + m + 1
      ensures Depth(s[..j]) > Depth(s[..i])
    {
      DepthSplit(s, i + 1, j - i - 1);
    }
  }

  /** The `[` at `p` is matched by the `]` at `c` when the count stays above its value
      before `p` up to `c` and falls back to it just after `c`: the scan from `p + 1`
      dips exactly at `c`. */
  lemma MatchOfOpen(s: seq<char>, p: nat, c: nat)
    requires p < c < |s| && s[p] == '['
    requires forall j :: p < j <= c ==> Depth(s[..j]) > Depth(s[..p])
    requires Depth(s[..c + 1]) <= Depth(s[..p])
    ensures FirstDip(s[p + 1..]) == Some(c - p - 1)
  {
    var t := s[p + 1..];
    DepthStep(s, p);
    DepthSplit(s, p + 1, c - p);
    forall k | 0 <= k <= c - p - 1
      ensures Depth(t[..k]) >= 0
    {
      DepthSplit(s, p + 1, k);
    }
    assert DipsAt(t, c - p - 1);
    FirstDipIs(t, c - p - 1);
  }

  /** One step of the walk from a `[` towards its matching `]` (the dip at `d` of the
      text after it): the count stays non-negative until the walk reaches `d`, and goes
      negative exactly there. */
  lemma WalkStep(t: seq<char>, d: nat, q: nat, count: int)
    requires DipsAt(t, d) && q <= d && count == Depth(t[..q])
    ensures count >= 0
    ensures Depth(t[..q + 1]) == count + Delta(t[q])
    ensures count + Delta(t[q]) < 0 <==> q == d
  {
    DepthStep(t, q);
    if q < d {
      assert Depth(t[..q + 1]) >= 0;
    }
  }

  /** The validator: one left-to-right pass with a counter, failing at the first `]`
      that takes the counter below zero. */
  method BracketsAreMatched(instructions: seq<char>) returns (r: BracketCheck)
    ensures r == Check(instructions)
  {
    var bracketCount := 0;
    for i := 0 to |instructions|
      invariant bracketCount == Depth(instructions[..i])
      invariant forall k :: 0 <= k <= i ==> Depth(instructions[..k]) >= 0
    {
      DepthStep(instructions, i);
      if instructions[i] == '[' {
        bracketCount := bracketCount + 1;
      } else if instructions[i] == ']' {
        bracketCount := bracketCount - 1;
      }
      if bracketCount < 0 {
        assert DipsAt(instructions, i);
        FirstDipIs(instructions, i);
        return UnmatchedClose(i);
      }
      assert Depth(instructions[..i + 1]) >= 0;
    }
    assert instructions[..|instructions|] == instructions;
    if bracketCount == 0 {
      return Matched;
    }
    return UnmatchedOpen;
  }
}
