/** The tree of block nodes (types/blocknode.go). Parents never change, so branches are fixed for good. */
module ChainTree {
  import opened Basics

  /** The validation state of a block, a set of flags. */
  datatype Status = Status(dataStored: bool, valid: bool, validateFailed: bool, invalidAncestor: bool)

  const NO_FLAGS := Status(false, false, false, false)
  const DATA_STORED := NO_FLAGS.(dataStored := true)
  const VALID := NO_FLAGS.(valid := true)
  const VALIDATE_FAILED := NO_FLAGS.(validateFailed := true)
  const INVALID_ANCESTOR := NO_FLAGS.(invalidAncestor := true)

  predicate KnownValid(s: Status) {
    s.valid
  }

  predicate KnownInvalid(s: Status) {
    s.validateFailed || s.invalidAncestor
  }

  /** Flags switched on, none switched off. */
  function Flagged(s: Status, flags: Status): Status {
    Status(s.dataStored || flags.dataStored, s.valid || flags.valid,
           s.validateFailed || flags.validateFailed, s.invalidAncestor || flags.invalidAncestor)
  }

  class BlockNode {
    const parent: BlockNode?
    const hash: Hash
    const height: nat
    var status: Status

    /** A child stands one above its parent, whatever height its header claims. */
    constructor (hash: Hash, claimed: nat, parent: BlockNode?, status: Status)
      ensures this.hash == hash && this.parent == parent && this.status == status
      ensures height == if parent == null then claimed else parent.height + 1
    {
      this.hash, this.parent, this.status := hash, parent, status;
      height := if parent == null then claimed else parent.height + 1;
    }

    /** The node at a height on the way from this node to the root. */
    method Ancestor(h: nat) returns (n: BlockNode?)
      requires Rooted(this)
      ensures h > height ==> n == null
      ensures h <= height ==> n == Path(this)[h]
    {
      if h > height {
        return null;
      }
      n := this;
      PathShape(this);
      while n != null && n.height != h
        invariant n != null && Rooted(n) && h <= n.height <= height && n == Path(this)[n.height]
        decreases if n == null then -1 else n.height as int
      {
        PathStep(this, n);
        n := n.parent;
      }
    }
  }

  /** Heights fall by one along the parents, to a root of height 0. */
  ghost predicate Rooted(n: BlockNode)
    decreases n.height
  {
    if n.parent == null then n.height == 0 else n.height == n.parent.height + 1 && Rooted(n.parent)
  }

  /** The branch from the root to a node. */
  ghost function Path(n: BlockNode): (p: seq<BlockNode>)
    requires Rooted(n)
    ensures |p| == n.height + 1 && p[n.height] == n
    decreases n.height
  {
    if n.parent == null then [n] else Path(n.parent) + [n]
  }

  lemma {:induction false} PathShape(n: BlockNode)
    requires Rooted(n)
    ensures forall i :: 0 <= i <= n.height ==>
      Rooted(Path(n)[i]) && Path(n)[i].height == i && Path(Path(n)[i]) == Path(n)[..i + 1]
    decreases n.height
  {
    var p := Path(n);
    assert p[..n.height + 1] == p;
    if n.parent != null {
      var q := n.parent;
      PathShape(q);
      assert p == Path(q) + [n];
      forall i | 0 <= i < n.height
        ensures Rooted(p[i]) && p[i].height == i && Path(p[i]) == p[..i + 1]
      {
        assert p[i] == Path(q)[i];
        assert p[..i + 1] == Path(q)[..i + 1];
      }
    }
  }

  /** One step up from a node on a branch. */
  lemma PathStep(tip: BlockNode, n: BlockNode)
    requires Rooted(tip) && Rooted(n) && n.height <= tip.height && n == Path(tip)[n.height]
    ensures n.parent == null <==> n.height == 0
    ensures n.parent != null ==>
      Rooted(n.parent) && n.parent.height == n.height - 1 && n.parent == Path(tip)[n.height - 1]
  {
    PathShape(tip);
    if n.parent != null {
      var h := n.height;
      assert Path(n) == Path(n.parent) + [n];
      assert Path(n) == Path(tip)[..h + 1];
      assert n.parent == Path(n.parent)[h - 1] == Path(n)[h - 1] == Path(tip)[h - 1];
    }
  }

  ghost predicate OnPath(n: BlockNode, tip: BlockNode)
    requires Rooted(tip)
  {
    n.height <= tip.height && Path(tip)[n.height] == n
  }

  /** Branches that share a node share everything below it. */
  lemma SharedBelow(a: BlockNode, b: BlockNode, i: nat)
    requires Rooted(a) && Rooted(b) && i <= a.height && i <= b.height && Path(a)[i] == Path(b)[i]
    ensures Path(a)[..i + 1] == Path(b)[..i + 1]
  {
    PathShape(a);
    PathShape(b);
  }
}
