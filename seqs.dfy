/**
 * Concatenating a sequence of runs, and finding an element of a run inside the
 * concatenation: how nested loops over sections and their entries line up with
 * the single run of steps they perform.
 */
module Seqs {

  /** The runs of xs one after the other. */
  function Flatten<T>(xs: seq<seq<T>>): (r: seq<T>)
  {
    if |xs| == 0 then [] else Flatten(xs[..|xs| - 1]) + xs[|xs| - 1]
  }

  /** Where run j starts inside Flatten(xs). */
  function Start<T>(xs: seq<seq<T>>, j: nat): (r: nat)
    requires j <= |xs|
  {
    |Flatten(xs[..j])|
  }

  /** Element i of run j sits at Start(xs, j) + i. */
  lemma {:induction false} FlattenAt<T>(xs: seq<seq<T>>, j: nat, i: nat)
    requires j < |xs| && i < |xs[j]|
    ensures Start(xs, j) + i < |Flatten(xs)|
    ensures Flatten(xs)[Start(xs, j) + i] == xs[j][i]
  {
    var n := |xs| - 1;
    assert xs[..n + 1] == xs;
    if j < n {
      assert xs[..n][..j] == xs[..j];
      FlattenAt(xs[..n], j, i);
    } else {
      assert xs[..j] == xs[..n];
    }
  }

  /** When run j is itself a concatenation, the first element of its run i sits at Start(xs, j) + Start(ys, i). */
  lemma FlattenNestedAt<T>(xs: seq<seq<T>>, ys: seq<seq<T>>, j: nat, i: nat, v: T, k: nat)
    requires j < |xs| && xs[j] == Flatten(ys) && i < |ys| && ys[i] == [v]
    requires k == Start(xs, j) + Start(ys, i)
    ensures k < |Flatten(xs)| && Flatten(xs)[k] == v
  {
    FlattenAt(ys, i, 0);
    FlattenAt(xs, j, Start(ys, i));
  }

  /** Every position of Flatten(xs) is some element of some run. */
  lemma {:induction false} FlattenLocate<T>(xs: seq<seq<T>>, k: nat) returns (j: nat, i: nat)
    requires k < |Flatten(xs)|
    ensures j < |xs| && i < |xs[j]| && k == Start(xs, j) + i
    ensures Flatten(xs)[k] == xs[j][i]
  {
    var n := |xs| - 1;
    assert xs[..n + 1] == xs;
    if k < |Flatten(xs[..n])| {
      j, i := FlattenLocate(xs[..n], k);
      assert xs[..n][..j] == xs[..j];
    } else {
      j, i := n, k - |Flatten(xs[..n])|;
    }
  }

  /** Runs that are all empty concatenate to nothing. */
  lemma {:induction false} FlattenEmpty<T>(xs: seq<seq<T>>)
    ensures (forall j :: 0 <= j < |xs| ==> xs[j] == []) ==> Flatten(xs) == []
  {
    if |xs| > 0 {
      FlattenEmpty(xs[..|xs| - 1]);
    }
  }

  /** Later runs start after earlier runs end. */
  lemma {:induction false} StartMonotone<T>(xs: seq<seq<T>>, j1: nat, j2: nat)
    requires j1 < j2 <= |xs|
    ensures Start(xs, j1) + |xs[j1]| <= Start(xs, j2)
  {
    if j2 == j1 + 1 {
      assert xs[..j2][..j1] == xs[..j1];
    } else {
      StartMonotone(xs, j1, j2 - 1);
      assert xs[..j2][..j2 - 1] == xs[..j2 - 1];
    }
  }

  /** Positions in Flatten(xs) are ordered as (run, index) pairs are, lexicographically. */
  lemma FlattenOrder<T>(xs: seq<seq<T>>, j1: nat, i1: nat, j2: nat, i2: nat)
    requires j1 < |xs| && i1 < |xs[j1]| && j2 < |xs| && i2 < |xs[j2]|
    requires Start(xs, j1) + i1 < Start(xs, j2) + i2
    ensures j1 < j2 || (j1 == j2 && i1 < i2)
  {
    if j2 < j1 {
      StartMonotone(xs, j2, j1);
    }
  }

}
