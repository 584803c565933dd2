/** The flat view of one branch (chain/chainview.go): a slice over a backing array, indexed by height. */
module ChainView {
  import opened ChainTree

  const APPROX_NODES_PER_WEEK := 6 * 24 * 7

  /** Nothing, or exactly the branch from the root to the last node. */
  ghost predicate IsBranch(c: seq<BlockNode?>) {
    c == [] || (c[|c| - 1] != null && Rooted(c[|c| - 1]) && c == Path(c[|c| - 1]))
  }

  class ChainView {
    var nodes: array<BlockNode?>
    var len: nat

    ghost predicate Valid()
      reads this, nodes
    {
      len <= nodes.Length && IsBranch(Contents())
    }

    ghost function Contents(): seq<BlockNode?>
      reads this, nodes
      requires len <= nodes.Length
    {
      nodes[..len]
    }

    constructor ()
      ensures Valid() && Contents() == [] && fresh(nodes)
    {
      nodes, len := new BlockNode?[0], 0;
    }

    method Tip() returns (tip: BlockNode?)
      requires Valid()
      ensures Contents() == [] ==> tip == null
      ensures Contents() != [] ==> tip != null && Rooted(tip) && Contents() == Path(tip)
    {
      if len == 0 {
        return null;
      }
      assert Contents()[|Contents()| - 1] == nodes[len - 1];
      return nodes[len - 1];
    }

    /** Room for `needed` nodes: what was there stays, the rest is nil. */
    method Resize(needed: nat)
      requires len <= nodes.Length
      modifies this, nodes
      ensures nodes == old(nodes) || fresh(nodes)
      ensures len == needed <= nodes.Length
      ensures forall i :: 0 <= i < needed ==> nodes[i] == if i < old(len) then old(nodes[i]) else null
    {
      if nodes.Length < needed {
        var bigger := new BlockNode?[needed + APPROX_NODES_PER_WEEK](_ => null);
        var i := 0;
        while i < len
          invariant nodes == old(nodes) && len == old(len) && nodes[..] == old(nodes[..])
          invariant 0 <= i <= len <= bigger.Length && fresh(bigger)
          invariant forall j :: 0 <= j < bigger.Length ==> bigger[j] == if j < i then nodes[j] else null
        {
          bigger[i] := nodes[i];
          i := i + 1;
        }
        nodes, len := bigger, needed;
      } else {
        var prevLen := len;
        len := needed;
        var i := prevLen;
        while i < needed
          invariant nodes == old(nodes) && len == needed
          invariant prevLen <= i && (i <= needed || i == prevLen)
          invariant forall j :: 0 <= j < needed && j < prevLen ==> nodes[j] == old(nodes[j])
          invariant forall j :: prevLen <= j < i && j < needed ==> nodes[j] == null
        {
          nodes[i] := null;
          i := i + 1;
        }
      }
    }

    /** The walk from the tip, which stops at the first node already in place. */
    method Walk(tip: BlockNode, ghost was: seq<BlockNode?>)
      requires Rooted(tip) && IsBranch(was) && len == tip.height + 1 <= nodes.Length
      requires forall i :: 0 <= i < len ==> nodes[i] == if i < |was| then was[i] else null
      modifies nodes
      ensures nodes[..len] == Path(tip)
    {
      hide Path, Rooted, IsBranch;
      PathShape(tip);
      ghost var p := Path(tip);
      var node: BlockNode? := tip;
      while node != null && nodes[node.height] != node
        invariant node != null ==> Rooted(node) && node.height <= tip.height && node == p[node.height]
        invariant forall i :: 0 <= i < len && (node == null || i > node.height) ==> nodes[i] == p[i]
        invariant node != null ==> forall i :: 0 <= i <= node.height ==> nodes[i] == if i < |was| then was[i] else null
        decreases if node == null then -1 else node.height as int
      {
        nodes[node.height] := node;
        PathStep(tip, node);
        node := node.parent;
      }
      if node != null {
        BranchBelow(was, node, tip);
      }
    }

    /** The view becomes the branch of the node. */
    method SetTip(tip: BlockNode?)
      requires Valid() && (tip != null ==> Rooted(tip))
      modifies this, nodes
      ensures Valid() && (nodes == old(nodes) || fresh(nodes))
      ensures Contents() == if tip == null then [] else Path(tip)
    {
      if tip == null {
        len := 0;
        return;
      }
      ghost var was := Contents();
      Resize(tip.height + 1);
      Walk(tip, was);
    }

    method NodeByHeight(height: nat) returns (n: BlockNode?)
      requires len <= nodes.Length
      ensures n == if height < |Contents()| then Contents()[height] else null
    {
      if height >= len {
        return null;
      }
      return nodes[height];
    }

    method Contains(node: BlockNode) returns (b: bool)
      requires len <= nodes.Length
      ensures b <==> node.height < |Contents()| && Contents()[node.height] == node
    {
      var n := NodeByHeight(node.height);
      return n == node;
    }

    /** The successor of a node in the view. */
    method Next(node: BlockNode?) returns (n: BlockNode?)
      requires Valid()
      ensures n != null ==> node != null && n in Contents() && n.parent == node
      ensures n == null <==> node == null || node !in Contents() || node == Contents()[|Contents()| - 1]
    {
      if node == null {
        return null;
      }
      var c := Contains(node);
      InBranch(Contents(), node);
      if !c {
        return null;
      }
      n := NodeByHeight(node.height + 1);
      if n != null {
        NextInBranch(Contents(), node);
      }
    }

    /** The walk to the first node of the view, from a node below which all others of the branch are. */
    method WalkToView(from: BlockNode, start: BlockNode) returns (fork: BlockNode?)
      requires Valid() && Rooted(from) && Rooted(start) && OnPath(start, from)
      requires forall i :: start.height < i <= from.height ==> Path(from)[i] !in Contents()
      ensures fork != null ==>
        && Rooted(fork) && OnPath(fork, from) && fork in Contents()
        && forall i :: fork.height < i <= from.height ==> Path(from)[i] !in Contents()
      ensures fork == null ==> forall i :: 0 <= i <= from.height ==> Path(from)[i] !in Contents()
    {
      hide Path, Rooted, IsBranch;
      ghost var p := Path(from);
      fork := start;
      while fork != null
        invariant fork != null ==> Rooted(fork) && fork.height <= from.height && fork == p[fork.height]
        invariant forall i :: (fork == null || fork.height < i) && 0 <= i <= from.height ==> p[i] !in Contents()
        decreases if fork == null then -1 else fork.height as int
      {
        var c := Contains(fork);
        InBranch(Contents(), fork);
        if c {
          return;
        }
        PathStep(from, fork);
        fork := fork.parent;
      }
    }

    /** The highest node of the view on the way from the given node to the root. */
    method FindFork(from: BlockNode?) returns (fork: BlockNode?)
      requires Valid() && (from != null ==> Rooted(from))
      ensures from == null ==> fork == null
      ensures from != null && fork != null ==>
        && Rooted(fork) && OnPath(fork, from) && fork in Contents()
        && forall i :: fork.height < i <= from.height ==> Path(from)[i] !in Contents()
      ensures from != null && fork == null ==> forall i :: 0 <= i <= from.height ==> Path(from)[i] !in Contents()
    {
      if from == null {
        return null;
      }
      var node := from;
      if len > 0 && from.height > len - 1 {
        node := from.Ancestor(len - 1);
        AboveBranch(Contents(), from);
      }
      PathShape(from);
      fork := WalkToView(from, node);
    }
  }

  /** Nodes higher than a branch are not on it. */
  lemma AboveBranch(c: seq<BlockNode?>, n: BlockNode)
    requires IsBranch(c) && Rooted(n)
    ensures forall i :: |c| <= i <= n.height ==> Path(n)[i] !in c
  {
    PathShape(n);
    hide Path, Rooted, IsBranch;
    forall i | |c| <= i <= n.height
      ensures Path(n)[i] !in c
    {
      InBranch(c, Path(n)[i]);
    }
  }

  /** In a branch a node can only stand at its height. */
  lemma InBranch(c: seq<BlockNode?>, n: BlockNode)
    requires IsBranch(c)
    ensures n in c <==> n.height < |c| && c[n.height] == n
  {
    if c != [] {
      PathShape(c[|c| - 1]);
    }
  }

  lemma NextInBranch(c: seq<BlockNode?>, n: BlockNode)
    requires IsBranch(c) && n.height + 1 < |c| && c[n.height] == n && c[n.height + 1] != null
    ensures c[n.height + 1].parent == n
  {
    var tip := c[|c| - 1];
    PathShape(tip);
    PathStep(tip, c[n.height + 1]);
  }

  /** Below a node that is in place, the old branch is the new one. */
  lemma BranchBelow(was: seq<BlockNode?>, node: BlockNode, tip: BlockNode)
    requires IsBranch(was) && Rooted(tip) && Rooted(node) && node.height <= tip.height && node == Path(tip)[node.height]
    requires node.height < |was| && was[node.height] == node
    ensures forall i :: 0 <= i <= node.height ==> was[i] == Path(tip)[i]
  {
    var old' := was[|was| - 1];
    SharedBelow(old', tip, node.height);
    forall i | 0 <= i <= node.height
      ensures was[i] == Path(tip)[i]
    {
      assert Path(old')[..node.height + 1][i] == Path(tip)[..node.height + 1][i];
    }
  }
}
