/** The descendant worklist over a sampled parent map, which may hold cycles and self-parents. */
module Descendants {
  import opened Base

  type Pid = nat

  type Parents = map<Pid, Pid>

  /** The process `n` parent links above `pid`. */
  function Above(parents: Parents, pid: Pid, n: nat): Option<Pid>
    decreases n
  {
    if n == 0 then Some(pid)
    else if pid in parents then Above(parents, parents[pid], n - 1)
    else None
  }

  ghost predicate Descends(parents: Parents, pid: Pid, root: Pid) {
    exists n: nat :: Above(parents, pid, n) == Some(root)
  }

  lemma ChildDescends(parents: Parents, pid: Pid, root: Pid)
    requires pid in parents && Descends(parents, parents[pid], root)
    ensures Descends(parents, pid, root)
  {
    var n: nat :| Above(parents, parents[pid], n) == Some(root);
    assert Above(parents, pid, n + 1) == Some(root);
  }

  /** A set that holds the root and the children of its members holds every descendant. */
  lemma {:induction false} ClosedHoldsDescendants(parents: Parents, root: Pid, tree: seq<Pid>, pid: Pid, n: nat)
    requires root in tree && forall p :: p in parents && parents[p] in tree ==> p in tree
    requires Above(parents, pid, n) == Some(root)
    ensures pid in tree
    decreases n
  {
    if n > 0 {
      ClosedHoldsDescendants(parents, root, tree, parents[pid], n - 1);
    }
  }

  ghost predicate NoRepeats(tree: seq<Pid>) {
    forall i, j :: 0 <= i < j < |tree| ==> tree[i] != tree[j]
  }

  lemma {:induction false} NoRepeatsFits(tree: seq<Pid>, all: set<Pid>)
    requires NoRepeats(tree) && forall i :: 0 <= i < |tree| ==> tree[i] in all
    ensures |tree| <= |all|
  {
    if tree != [] {
      var n := |tree| - 1;
      NoRepeatsFits(tree[..n], all - {tree[n]});
    }
  }

  /** What the worklist holds at every point: distinct descendants, the root first, each after its parent. */
  ghost predicate Sound(parents: Parents, root: Pid, tree: seq<Pid>) {
    && tree != [] && tree[0] == root
    && NoRepeats(tree)
    && (forall i :: 0 <= i < |tree| ==> Descends(parents, tree[i], root))
    && (forall i :: 0 < i < |tree| ==> AfterParent(parents, tree, i))
  }

  ghost predicate AfterParent(parents: Parents, tree: seq<Pid>, i: nat)
    requires i < |tree|
  {
    tree[i] in parents && parents[tree[i]] in tree[..i]
  }

  /** The children of the first `index` processes are all listed. */
  ghost predicate Expanded(parents: Parents, tree: seq<Pid>, index: nat)
    requires index <= |tree|
  {
    forall p :: p in parents && parents[p] in tree[..index] ==> p in tree
  }

  lemma ExpandNext(parents: Parents, tree: seq<Pid>, grown: seq<Pid>, index: nat)
    requires index < |tree| && tree <= grown && Expanded(parents, tree, index)
    requires forall p :: p in parents && parents[p] == tree[index] ==> p in grown
    ensures Expanded(parents, grown, index + 1)
  {
    assert grown[..index + 1] == tree[..index] + [tree[index]];
  }

  /** The finished worklist holds every descendant. */
  lemma AllListed(parents: Parents, root: Pid, tree: seq<Pid>)
    requires Sound(parents, root, tree) && Expanded(parents, tree, |tree|)
    ensures forall pid :: pid in tree <==> Descends(parents, pid, root)
  {
    assert tree[..|tree|] == tree;
    forall pid | Descends(parents, pid, root) ensures pid in tree {
      var n: nat :| Above(parents, pid, n) == Some(root);
      ClosedHoldsDescendants(parents, root, tree, pid, n);
    }
  }

  lemma AddChild(parents: Parents, root: Pid, tree: seq<Pid>, pid: Pid)
    requires Sound(parents, root, tree) && pid in parents && parents[pid] in tree && pid !in tree
    ensures Sound(parents, root, tree + [pid])
  {
    var grown := tree + [pid];
    assert Descends(parents, pid, root) by {
      var i :| 0 <= i < |tree| && tree[i] == parents[pid];
      ChildDescends(parents, pid, root);
    }
    forall i | 0 < i < |grown| ensures AfterParent(parents, grown, i) {
      assert grown[..i] == tree[..i];
      if i < |tree| {
        assert AfterParent(parents, tree, i);
      } else {
        assert grown[..i] == tree;
      }
    }
  }

  /** One pass over the parent map for the process at `index`. */
  method AddChildren(parents: Parents, root: Pid, tree: seq<Pid>, index: nat) returns (grown: seq<Pid>)
    requires Sound(parents, root, tree) && index < |tree|
    ensures Sound(parents, root, grown) && tree <= grown
    ensures forall p :: p in parents && parents[p] == tree[index] ==> p in grown
  {
    grown := tree;
    var rest := parents.Keys;
    while rest != {}
      invariant rest <= parents.Keys && Sound(parents, root, grown) && tree <= grown
      invariant forall p :: p in parents && p !in rest && parents[p] == tree[index] ==> p in grown
      decreases rest
    {
      var pid :| pid in rest;
      if parents[pid] == tree[index] && pid !in grown {
        assert grown[index] == tree[index];
        AddChild(parents, root, grown, pid);
        grown := grown + [pid];
      }
      rest := rest - {pid};
    }
  }

  /** `descendant_tree`: each process from which the root is reachable by parent links, exactly once. */
  method DescendantTree(parents: Parents, root: Pid) returns (tree: seq<Pid>)
    ensures Sound(parents, root, tree)
    ensures forall pid :: pid in tree <==> Descends(parents, pid, root)
  {
    tree := [root];
    assert Above(parents, root, 0) == Some(root);
    var index := 0;
    ghost var all := parents.Keys + {root};
    while index < |tree|
      invariant index <= |tree| <= |all|
      invariant Sound(parents, root, tree)
      invariant Expanded(parents, tree, index)
      decreases |all| - index
    {
      var grown := AddChildren(parents, root, tree, index);
      NoRepeatsFits(grown, all);
      ExpandNext(parents, tree, grown, index);
      tree := grown;
      index := index + 1;
    }
    AllListed(parents, root, tree);
  }
}
