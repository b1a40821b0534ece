/** A character-by-character scanner as a left fold: the converter's index loops keep
    a small state (quote flag, bracket depth, buffers) and update it once per char. */
module Scanning {

  /** The state after feeding every char of `s`, in order, to `step`, starting from `st`. */
  function Fold<S>(step: (S, char) -> S, st: S, s: string): S
    decreases |s|
  {
    if s == [] then st else Fold(step, step(st, s[0]), s[1..])
  }

  /** Scanning a concatenation is scanning its parts one after the other. */
  lemma {:induction false} FoldAppend<S>(step: (S, char) -> S, st: S, a: string, b: string)
    ensures Fold(step, st, a + b) == Fold(step, Fold(step, st, a), b)
    decreases |a|
  {
    if a == [] {
      assert a + b == b;
    } else {
      assert (a + b)[0] == a[0];
      assert (a + b)[1..] == a[1..] + b;
      FoldAppend(step, step(st, a[0]), a[1..], b);
    }
  }

  /** Two scans that meet in the middle make one scan of the concatenation. */
  lemma FoldChain<S>(step: (S, char) -> S, st: S, a: string, mid: S, b: string, end: S)
    requires Fold(step, st, a) == mid && Fold(step, mid, b) == end
    ensures Fold(step, st, a + b) == end
  {
    FoldAppend(step, st, a, b);
  }

  /** Scanning a one-char string is one step. */
  lemma FoldOne<S>(step: (S, char) -> S, st: S, c: char)
    ensures Fold(step, st, [c]) == step(st, c)
  {
    assert [c][1..] == [];
  }

  /** One more char of the input is one more step: what a loop over `s` needs. */
  lemma FoldStep<S>(step: (S, char) -> S, st: S, s: string, i: nat)
    requires i < |s|
    ensures Fold(step, st, s[..i + 1]) == step(Fold(step, st, s[..i]), s[i])
  {
    assert s[..i + 1] == s[..i] + [s[i]];
    FoldAppend(step, st, s[..i], [s[i]]);
  }

  /** A non-empty sequence is its front followed by its last element. */
  lemma InitLast<T>(s: seq<T>)
    requires s != []
    ensures s[..|s| - 1] + [s[|s| - 1]] == s
  {
  }

  /** Extending a slice by one element. */
  lemma SliceSnoc<T>(s: seq<T>, i: nat, k: nat)
    requires i <= k < |s|
    ensures s[i..k + 1] == s[i..k] + [s[k]]
  {
  }

  /** Writing three pieces after `a` is writing them one after another. */
  lemma AppendThree<T>(a: seq<T>, b: seq<T>, c: seq<T>, d: seq<T>)
    ensures a + (b + c + d) == a + b + c + d
  {
  }

  lemma AppendFour<T>(a: seq<T>, b: seq<T>, c: seq<T>, d: seq<T>, e: seq<T>)
    ensures a + (b + c + d + e) == a + b + c + d + e
  {
  }

  lemma AppendTwo<T>(a: seq<T>, b: seq<T>, c: seq<T>)
    ensures a + (b + c) == a + b + c
  {
  }
}
