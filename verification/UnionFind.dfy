/**
  `_UnionFind` (pipeline/analysis/campaigns.py): a parent array, path halving in `find`, and
  linking towards the smaller root in `union`. The specification is the function Root on the
  array's contents; `parent[i] <= i` is what makes it, and the loop of `find`, terminate.
 */
module UnionFind {

  ghost predicate Forest(p: seq<nat>) {
    forall i :: 0 <= i < |p| ==> p[i] <= i
  }

  ghost function Root(p: seq<nat>, i: nat): (r: nat)
    requires Forest(p) && i < |p|
    ensures r <= i && p[r] == r
  {
    if p[i] == i then i else Root(p, p[i])
  }

  /** Path halving at `i` leaves every root where it was. */
  lemma {:induction false} HalvingKeepsRoots(p: seq<nat>, i: nat, j: nat)
    requires Forest(p) && i < |p| && j < |p|
    ensures p[p[i]] <= i && Forest(p[i := p[p[i]]])
    ensures Root(p[i := p[p[i]]], j) == Root(p, j)
    decreases j
  {
    var q := p[i := p[p[i]]];
    assert Forest(q);
    if p[j] != j {
      if j == i {
        var g := p[p[i]];
        if g != i {
          HalvingKeepsRoots(p, i, g);
        }
      } else {
        HalvingKeepsRoots(p, i, p[j]);
      }
    }
  }

  /** Linking root `hi` below root `lo` redirects exactly the class of `hi`. */
  lemma {:induction false} LinkMergesRoots(p: seq<nat>, lo: nat, hi: nat, j: nat)
    requires Forest(p) && lo < hi < |p| && j < |p|
    requires p[lo] == lo && p[hi] == hi
    ensures Forest(p[hi := lo])
    ensures Root(p[hi := lo], j) == if Root(p, j) == hi then lo else Root(p, j)
    decreases j
  {
    var q := p[hi := lo];
    assert Forest(q);
    if j == hi {
      assert Root(q, lo) == lo;
    } else if p[j] != j {
      LinkMergesRoots(p, lo, hi, p[j]);
    }
  }

  /** Going from `p` to `q` merges the classes of `i` and `j` and moves nothing else. */
  ghost predicate Merged(p: seq<nat>, q: seq<nat>, i: nat, j: nat)
    requires Forest(p) && Forest(q) && |p| == |q| && i < |p| && j < |p|
  {
    var ri, rj := Root(p, i), Root(p, j);
    var lo, hi := if ri < rj then ri else rj, if ri < rj then rj else ri;
    forall k: nat :: k < |p| ==> Root(q, k) == if Root(p, k) == hi then lo else Root(p, k)
  }

  class DisjointSets {
    const parent: array<nat>

    ghost predicate Valid()
      reads parent
    {
      Forest(parent[..])
    }

    ghost function RootOf(i: nat): nat
      requires Valid() && i < parent.Length
      reads parent
    {
      Root(parent[..], i)
    }

    constructor (size: nat)
      ensures Valid() && fresh(parent) && parent.Length == size
      ensures forall i: nat :: i < size ==> RootOf(i) == i
    {
      parent := new nat[size](i => i);
    }

    method Find(start: nat) returns (i: nat)
      requires Valid() && start < parent.Length
      modifies parent
      ensures Valid()
      ensures i == old(RootOf(start)) == RootOf(start)
      ensures forall j: nat :: j < parent.Length ==> RootOf(j) == old(RootOf(j))
    {
      ghost var before := parent[..];
      i := start;
      while parent[i] != i
        invariant i < parent.Length && Valid()
        invariant Root(parent[..], i) == Root(before, start)
        invariant forall j: nat :: j < parent.Length ==> Root(parent[..], j) == Root(before, j)
        decreases i
      {
        ghost var p := parent[..];
        forall j: nat | j < |p| ensures Root(p[i := p[p[i]]], j) == Root(p, j) {
          HalvingKeepsRoots(p, i, j);
        }
        parent[i] := parent[parent[i]];
        assert parent[..] == p[i := p[p[i]]];
        i := parent[i];
      }
    }

    method Union(i: nat, j: nat)
      requires Valid() && i < parent.Length && j < parent.Length
      modifies parent
      ensures Valid()
      ensures Merged(old(parent[..]), parent[..], i, j)
    {
      var ri := Find(i);
      var rj := Find(j);
      forall k: nat | k < parent.Length
        ensures Root(parent[..], k) == Root(old(parent[..]), k)
      {
        assert RootOf(k) == old(RootOf(k));
      }
      if ri != rj {
        var lo: nat, hi: nat := if ri < rj then ri else rj, if ri < rj then rj else ri;
        ghost var p := parent[..];
        forall k: nat | k < |p|
          ensures Root(p[hi := lo], k) == if Root(p, k) == hi then lo else Root(p, k)
        {
          LinkMergesRoots(p, lo, hi, k);
        }
        parent[hi] := lo;
        assert parent[..] == p[hi := lo];
      }
    }
  }
}
