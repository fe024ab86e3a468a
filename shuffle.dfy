/**
 * The reordering that `random.shuffle` applies to the employee list.
 *
 * The random draw itself is not modelled: the caller supplies the permutation
 * of positions that the shuffle happened to produce, and the shuffled list is
 * the input read through that permutation.
 */
module Shuffle {

  /** `perm` lists every position 0 .. n-1 exactly once, in some order. */
  predicate IsPermutation(perm: seq<nat>, n: nat) {
    && |perm| == n
    && (forall i :: 0 <= i < n ==> perm[i] < n)
    && (forall i, j :: 0 <= i < j < n ==> perm[i] != perm[j])
  }

  /** The list `s` read in the order given by `perm`. */
  function Permute<T>(s: seq<T>, perm: seq<nat>): seq<T>
    requires forall i :: 0 <= i < |perm| ==> perm[i] < |s|
  {
    seq(|perm|, i requires 0 <= i < |perm| => s[perm[i]])
  }

  /** Position `v` of a list once position `gap` has been cut out of it. */
  function Close(v: nat, gap: nat): nat {
    if v > gap then v - 1 else v
  }

  /**
   * Cutting out the position `gap` that lands last: the remaining positions,
   * closed up, permute the list without that element and give the shuffled
   * list without its last element.
   */
  lemma CutLast<T>(s: seq<T>, perm: seq<nat>) returns (rest: seq<T>, perm': seq<nat>)
    requires |s| > 0 && IsPermutation(perm, |s|)
    ensures rest == s[..perm[|s| - 1]] + s[perm[|s| - 1] + 1..]
    ensures IsPermutation(perm', |s| - 1)
    ensures Permute(rest, perm') == Permute(s, perm)[..|s| - 1]
  {
    var n := |s|;
    var gap := perm[n - 1];
    rest := s[..gap] + s[gap + 1..];
    perm' := seq(n - 1, i requires 0 <= i < n - 1 => Close(perm[i], gap));
    forall i | 0 <= i < n - 1
      ensures perm'[i] < n - 1 && rest[perm'[i]] == s[perm[i]]
    {
      assert perm[i] != gap;
    }
    forall i, j | 0 <= i < j < n - 1
      ensures perm'[i] != perm'[j]
    {
      assert perm[i] != perm[j] && perm[i] != gap && perm[j] != gap;
    }
  }

  /**
   * Shuffling only reorders: the shuffled list holds exactly the elements of
   * the original, each as often as before.
   */
  lemma {:induction false} PermutePreservesMultiset<T>(s: seq<T>, perm: seq<nat>)
    requires IsPermutation(perm, |s|)
    ensures multiset(Permute(s, perm)) == multiset(s)
  {
    if |s| > 0 {
      var n, t := |s|, Permute(s, perm);
      var gap := perm[n - 1];
      var rest, perm' := CutLast(s, perm);
      PermutePreservesMultiset(rest, perm');
      calc {
        multiset(t);
        { assert t == t[..n - 1] + [t[n - 1]]; }
        multiset(t[..n - 1]) + multiset{s[gap]};
        multiset(rest) + multiset{s[gap]};
        { assert s == s[..gap] + [s[gap]] + s[gap + 1..]; }
        multiset(s);
      }
    }
  }
}
