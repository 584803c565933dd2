/**
 Chain selection (chain/process.go): blocks join the tree, extend the best branch, or cause a
 reorganisation. Validators, execution and storage may succeed or fail at every call.
 */
module ChainService {
  import opened Basics
  import opened ChainTree
  import opened ChainView
  import opened Orphans

  class BlockIndex {
    var index: map<Hash, BlockNode>
    const genesis: BlockNode

    constructor (genesis: BlockNode)
      ensures this.genesis == genesis && index == map[genesis.hash := genesis]
    {
      this.genesis := genesis;
      index := map[genesis.hash := genesis];
    }

    /** A tree that grows from the genesis block: every node is found under its hash, with its parent. */
    ghost predicate Valid()
      reads this
    {
      && Indexed(genesis) && genesis.parent == null
      && forall h :: h in index ==>
           && index[h].hash == h && Rooted(index[h])
           && (index[h].parent == null ==> index[h] == genesis)
           && (index[h].parent != null ==> Indexed(index[h].parent))
    }

    ghost predicate Indexed(n: BlockNode)
      reads this
    {
      n.hash in index && index[n.hash] == n
    }

    method LookupNode(hash: Hash) returns (n: BlockNode?)
      ensures n == if hash in index then index[hash] else null
    {
      n := if hash in index then index[hash] else null;
    }

    method AddNode(n: BlockNode)
      requires Valid() && n.hash !in index && Rooted(n) && n.parent != null && Indexed(n.parent)
      modifies this
      ensures Valid() && index == old(index)[n.hash := n]
    {
      index := index[n.hash := n];
    }

    method SetStatusFlags(n: BlockNode, flags: Status)
      modifies n`status
      ensures n.status == Flagged(old(n.status), flags)
    {
      n.status := Flagged(n.status, flags);
    }

    /** All of a branch is indexed, and it starts at the genesis block. */
    lemma BranchIndexed(n: BlockNode)
      requires Valid() && Indexed(n)
      ensures Rooted(n) && Path(n)[0] == genesis
      ensures forall i :: 0 <= i <= n.height ==> Indexed(Path(n)[i])
      decreases n.height
    {
      if n.parent != null {
        BranchIndexed(n.parent);
      }
    }
  }

  /** A node that may be on the best branch. */
  ghost predicate Good(n: BlockNode)
    reads n
  {
    KnownValid(n.status) && !KnownInvalid(n.status)
  }

  class ChainService {
    const blockIndex: BlockIndex
    const bestChain: ChainView
    const pool: OrphanPool

    ghost predicate Valid()
      reads this, blockIndex, blockIndex.index.Values, bestChain, bestChain.nodes
    {
      blockIndex.Valid() && bestChain.Valid() && BestIsGood()
    }

    /** The best branch starts at the genesis block, is indexed, and all of it is known valid. */
    ghost predicate BestIsGood()
      reads this, blockIndex, blockIndex.index.Values, bestChain, bestChain.nodes
      requires blockIndex.Valid() && bestChain.Valid()
    {
      && bestChain.Contents() != []
      && forall n: BlockNode? :: n in bestChain.Contents() ==> n != null && blockIndex.Indexed(n) && Good(n)
    }

    /** Together with the orphan pool, none of whose blocks is in the tree. */
    ghost predicate Whole()
      reads this, blockIndex, blockIndex.index.Values, bestChain, bestChain.nodes, pool
    {
      Valid() && pool.Valid() && pool.orphans.Keys !! blockIndex.index.Keys
    }

    /** createChainState: the genesis block is the tip. */
    constructor (hash: Block -> Hash, genesisHash: Hash)
      requires Injective(hash)
      ensures Valid() && Whole() && fresh(blockIndex) && fresh(bestChain) && fresh(bestChain.nodes) && fresh(pool)
      ensures fresh(blockIndex.index.Values)
      ensures bestChain.Contents() == [blockIndex.genesis] && fresh(blockIndex.genesis)
      ensures blockIndex.index.Keys == {genesisHash} && pool.hash == hash && pool.orphans == map[]
    {
      var node := new BlockNode(genesisHash, 0, null, Flagged(DATA_STORED, VALID));
      var view := new ChainView();
      view.SetTip(node);
      blockIndex := new BlockIndex(node);
      bestChain := view;
      pool := new OrphanPool(hash);
    }

    /** Executes the block: it may fail in execution, fail in the comparison of results, or be valid. */
    method ConnectBlock(n: BlockNode) returns (ok: bool)
      requires Valid() && blockIndex.Indexed(n) && n !in bestChain.Contents() && !KnownInvalid(n.status)
      modifies n`status
      ensures Valid()
      ensures ok ==> Good(n)
    {
      var executed: bool := *;
      if !executed {
        return false;
      }
      var matched: bool := *;
      if matched {
        blockIndex.SetStatusFlags(n, VALID);
        return true;
      } else {
        blockIndex.SetStatusFlags(n, VALIDATE_FAILED);
        return false;
      }
    }

    /** The best branch becomes the branch of the node. */
    method MarkState(n: BlockNode)
      requires Valid() && blockIndex.Indexed(n)
      requires Rooted(n) && forall i :: 0 <= i <= n.height ==> Good(Path(n)[i])
      modifies bestChain, bestChain.nodes
      ensures Valid() && bestChain.Contents() == Path(n)
      ensures bestChain.nodes == old(bestChain.nodes) || fresh(bestChain.nodes)
    {
      blockIndex.BranchIndexed(n);
      bestChain.SetTip(n);
    }

    /** The parts of the old and the new branch above their fork, or nothing for an invalid branch. */
    ghost predicate IsReorganisation(detach: seq<BlockNode>, attach: seq<BlockNode>, fork: BlockNode, n: BlockNode)
      reads bestChain, bestChain.nodes, attach
      requires bestChain.Valid()
    {
      && Rooted(n) && Rooted(fork) && fork in bestChain.Contents()
      && Path(fork) + attach == Path(n) && attach != []
      && fork.height < |bestChain.Contents()|
      && |detach| == |bestChain.Contents()| - 1 - fork.height
      && (forall i :: 0 <= i < |detach| ==> detach[i] == bestChain.Contents()[|bestChain.Contents()| - 1 - i])
      && (forall a :: a in attach ==> !KnownInvalid(a.status) && a !in bestChain.Contents())
    }

    /** Nodes from n down to the fork, or to the first that is known invalid. */
    method CollectAttach(n: BlockNode, fork: BlockNode) returns (attach: seq<BlockNode>, invalidChain: bool)
      requires Rooted(n) && Rooted(fork) && OnPath(fork, n)
      ensures forall i :: 0 <= i < |attach| ==> !KnownInvalid(attach[i].status)
      ensures |attach| <= n.height - fork.height && attach == Path(n)[n.height + 1 - |attach|..]
      ensures !invalidChain ==> |attach| == n.height - fork.height
    {
      hide Path, Rooted;
      PathShape(n);
      ghost var p := Path(n);
      attach, invalidChain := [], false;
      var node: BlockNode? := n;
      while node != null && node != fork
        invariant node != null ==> Rooted(node) && fork.height <= node.height <= n.height && node == p[node.height]
        invariant |attach| <= n.height - fork.height && attach == p[n.height + 1 - |attach|..]
        invariant node != null && |attach| == n.height - node.height
        invariant forall i :: 0 <= i < |attach| ==> !KnownInvalid(attach[i].status)
        decreases if node == null then -1 else node.height as int
      {
        if KnownInvalid(node.status) {
          return attach, true;
        }
        attach := [node] + attach;
        PathStep(n, node);
        node := node.parent;
      }
    }

    method CollectDetach(fork: BlockNode) returns (detach: seq<BlockNode>)
      requires Valid() && Rooted(fork) && fork in bestChain.Contents()
      ensures fork.height < |bestChain.Contents()| && |detach| == |bestChain.Contents()| - 1 - fork.height
      ensures forall i :: 0 <= i < |detach| ==> detach[i] == bestChain.Contents()[|bestChain.Contents()| - 1 - i]
    {
      hide *;
      ValidParts();
      ghost var c := bestChain.Contents();
      BestIsBranch();
      InBranch(c, fork);
      var tip := bestChain.Tip();
      TipAbove(c, fork, tip);
      detach := WalkBack(tip, fork);
    }

    /** Marks nodes outside the best branch. */
    method MarkInvalid(nodes: seq<BlockNode>)
      requires Valid() && forall n :: n in nodes ==> n !in bestChain.Contents()
      modifies nodes
      ensures Valid()
    {
      var i := 0;
      while i < |nodes|
        invariant 0 <= i <= |nodes| && Valid()
      {
        assert nodes[i] in nodes;
        blockIndex.SetStatusFlags(nodes[i], INVALID_ANCESTOR);
        i := i + 1;
      }
    }

    /** The fork of a node's branch, and the nodes above it down from the node as far as none is invalid. */
    method ForkAndAttach(n: BlockNode) returns (fork: BlockNode, attach: seq<BlockNode>, invalidChain: bool)
      requires Valid() && blockIndex.Indexed(n)
      ensures Rooted(n) && Rooted(fork) && fork in bestChain.Contents() && fork.height < |bestChain.Contents()|
      ensures forall a :: a in attach ==> a !in bestChain.Contents() && blockIndex.Indexed(a) && !KnownInvalid(a.status)
      ensures !invalidChain ==> Path(fork) + attach == Path(n)
    {
      ValidParts();
      hide Path, Rooted, IsBranch, BlockIndex.Valid, ChainService.Valid;
      blockIndex.BranchIndexed(n);
      GenesisShared(n);
      fork := bestChain.FindFork(n);
      InBranch(bestChain.Contents(), fork);
      attach, invalidChain := CollectAttach(n, fork);
      AttachOutside(n, fork, attach);
      if !invalidChain {
        AttachIsRest(n, fork, attach);
      }
    }

    method GetReorganizeNodes(n: BlockNode)
      returns (detach: seq<BlockNode>, attach: seq<BlockNode>, ghost fork: BlockNode?)
      requires Valid() && blockIndex.Indexed(n) && n !in bestChain.Contents() && n.parent != null
      modifies blockIndex.index.Values
      ensures Valid()
      ensures (detach == [] && attach == []) || (fork != null && IsReorganisation(detach, attach, fork, n))
    {
      detach, attach, fork := [], [], null;
      ValidParts();
      hide Path, Rooted, IsBranch, BlockIndex.Valid, ChainService.Valid;
      if KnownInvalid(n.parent.status) {
        MarkInvalid([n]);
        return;
      }
      var forkNode, invalidChain;
      forkNode, attach, invalidChain := ForkAndAttach(n);
      if invalidChain {
        forall a | a in attach
          ensures a in blockIndex.index.Values
        {
          assert blockIndex.index[a.hash] == a;
        }
        MarkInvalid(attach);
        attach := [];
        return;
      }
      detach := CollectDetach(forkNode);
      fork := forkNode;
      TipNotOnBranch(n, forkNode, attach);
    }

    lemma TipNotOnBranch(n: BlockNode, fork: BlockNode, attach: seq<BlockNode>)
      requires bestChain.Valid() && Rooted(n) && Rooted(fork) && fork in bestChain.Contents()
      requires n !in bestChain.Contents() && Path(fork) + attach == Path(n)
      ensures attach != []
    {
    }

    lemma ValidParts()
      requires Valid()
      ensures blockIndex.Valid() && bestChain.Valid() && bestChain.Contents() != []
    {
    }

    lemma BestIsBranch()
      requires bestChain.Valid()
      ensures IsBranch(bestChain.Contents())
    {
    }

    /** Every indexed branch meets the best one at the genesis block at the latest. */
    lemma GenesisShared(n: BlockNode)
      requires Valid() && blockIndex.Indexed(n)
      ensures Rooted(n) && Path(n)[0] in bestChain.Contents()
    {
      blockIndex.BranchIndexed(n);
      var c := bestChain.Contents();
      var tip := c[|c| - 1];
      assert tip in c;
      blockIndex.BranchIndexed(tip);
    }

    lemma AttachOutside(n: BlockNode, fork: BlockNode, attach: seq<BlockNode>)
      requires Rooted(n) && |attach| <= n.height - fork.height && attach == Path(n)[n.height + 1 - |attach|..]
      requires bestChain.Valid() && forall i :: fork.height < i <= n.height ==> Path(n)[i] !in bestChain.Contents()
      requires blockIndex.Valid() && blockIndex.Indexed(n)
      ensures forall a :: a in attach ==> a !in bestChain.Contents() && blockIndex.Indexed(a)
    {
      blockIndex.BranchIndexed(n);
      var p, lo := Path(n), n.height + 1 - |attach|;
      forall a | a in attach
        ensures a !in bestChain.Contents() && blockIndex.Indexed(a)
      {
        var i :| 0 <= i < |attach| && attach[i] == a;
        assert a == p[lo + i];
      }
    }

    /** Detaches to the fork, then attaches block by block; it stops where storage or a block fails. */
    method ReorganizeChain(detach: seq<BlockNode>, attach: seq<BlockNode>, ghost fork: BlockNode?, ghost n: BlockNode)
      returns (ok: bool)
      requires Valid() && blockIndex.Indexed(n)
      requires (detach == [] && attach == []) || (fork != null && IsReorganisation(detach, attach, fork, n))
      modifies bestChain, bestChain.nodes, blockIndex.index.Values
      ensures Valid() && (bestChain.nodes == old(bestChain.nodes) || fresh(bestChain.nodes))
      ensures ok && detach != [] ==> bestChain.Contents() == Path(n)
      ensures detach == [] ==> bestChain.Contents() == old(bestChain.Contents())
    {
      if detach == [] {
        return true;
      }
      ForkIsGood(detach, attach, fork, n);
      StartAttach(detach, attach, fork, n);
      hide ChainService.IsReorganisation, ChainService.ToAttach, Path, Rooted, IsBranch;
      var lastBlock := detach[|detach| - 1];
      MarkState(lastBlock.parent);
      var stored: bool := *;
      if !stored {
        return false;
      }
      ToAttachFrom(attach, fork);
      ok := Attach(attach, fork, n);
    }

    lemma StartAttach(detach: seq<BlockNode>, attach: seq<BlockNode>, fork: BlockNode, n: BlockNode)
      requires Valid() && blockIndex.Indexed(n) && IsReorganisation(detach, attach, fork, n)
      ensures forall j :: 0 <= j < |attach| ==>
        && blockIndex.Indexed(attach[j]) && !KnownInvalid(attach[j].status) && attach[j].height > fork.height
        && Rooted(attach[j]) && Path(attach[j]) == Path(fork) + attach[..j + 1]
      ensures Rooted(n) && Rooted(fork) && Path(n) == Path(fork) + attach
      ensures forall a :: a in attach ==> a in blockIndex.index.Values
    {
      ValidParts();
      hide Path, Rooted, IsBranch, BlockIndex.Valid, ChainService.Valid;
      blockIndex.BranchIndexed(n);
      AttachPaths(fork, attach, n);
      forall j | 0 <= j < |attach|
        ensures blockIndex.Indexed(attach[j]) && !KnownInvalid(attach[j].status)
      {
        assert attach[j] == Path(n)[fork.height + 1 + j] && attach[j] in attach;
      }
      forall a | a in attach
        ensures a in blockIndex.index.Values
      {
        assert blockIndex.index[a.hash] == a;
      }
    }

    lemma ToAttachFrom(attach: seq<BlockNode>, fork: BlockNode)
      requires bestChain.Valid() && Rooted(fork) && bestChain.Contents() == Path(fork)
      requires forall j :: 0 <= j < |attach| ==>
        && blockIndex.Indexed(attach[j]) && !KnownInvalid(attach[j].status) && attach[j].height > fork.height
        && Rooted(attach[j]) && Path(attach[j]) == Path(fork) + attach[..j + 1]
      ensures ToAttach(attach, 0, fork)
    {
      assert attach[..0] == [] && Path(fork) + [] == Path(fork);
      forall j | 0 <= j < |attach|
        ensures attach[j] !in bestChain.Contents()
      {
        InBranch(bestChain.Contents(), attach[j]);
      }
    }

    lemma ForkIsGood(detach: seq<BlockNode>, attach: seq<BlockNode>, fork: BlockNode, n: BlockNode)
      requires Valid() && IsReorganisation(detach, attach, fork, n) && detach != []
      ensures detach[|detach| - 1].parent == fork && blockIndex.Indexed(fork)
      ensures forall i :: 0 <= i <= fork.height ==> Good(Path(fork)[i])
      ensures fork.height < |bestChain.Contents()| && Path(fork) == bestChain.Contents()[..fork.height + 1]
    {
      var c := bestChain.Contents();
      var tip := c[|c| - 1];
      InBranch(c, fork);
      PathShape(tip);
      PathStep(tip, c[fork.height + 1]);
      forall i | 0 <= i <= fork.height
        ensures Good(Path(fork)[i])
      {
        assert Path(fork)[i] == c[i];
      }
    }

    /** The nodes from i on are still to be attached above the tip. */
    ghost predicate ToAttach(attach: seq<BlockNode>, i: nat, fork: BlockNode)
      reads this, blockIndex, bestChain, bestChain.nodes, attach
      requires bestChain.Valid()
    {
      && i <= |attach| && Rooted(fork) && bestChain.Contents() == Path(fork) + attach[..i]
      && forall j :: i <= j < |attach| ==>
           && blockIndex.Indexed(attach[j]) && !KnownInvalid(attach[j].status) && attach[j] !in bestChain.Contents()
           && Rooted(attach[j]) && Path(attach[j]) == Path(fork) + attach[..j + 1]
    }

    method AttachNext(attach: seq<BlockNode>, i: nat, ghost fork: BlockNode) returns (ok: bool)
      requires Valid() && i < |attach| && ToAttach(attach, i, fork)
      modifies bestChain, bestChain.nodes, attach[i]
      ensures Valid() && (bestChain.nodes == old(bestChain.nodes) || fresh(bestChain.nodes))
      ensures bestChain.Valid() && (ok ==> ToAttach(attach, i + 1, fork))
    {
      var stored: bool := *;
      if !stored {
        return false;
      }
      ok := ConnectBlock(attach[i]);
      if !ok {
        return;
      }
      GoodAbove(attach, i, fork);
      MarkState(attach[i]);
      LaterOutside(attach, i, fork);
    }

    lemma GoodAbove(attach: seq<BlockNode>, i: nat, fork: BlockNode)
      requires Valid() && i < |attach| && Rooted(fork) && bestChain.Contents() == Path(fork) + attach[..i]
      requires Rooted(attach[i]) && Path(attach[i]) == Path(fork) + attach[..i + 1] && Good(attach[i])
      ensures forall j :: 0 <= j <= attach[i].height ==> Good(Path(attach[i])[j])
    {
      var p, c := Path(attach[i]), bestChain.Contents();
      assert p == c + [attach[i]];
      forall j | 0 <= j <= attach[i].height
        ensures Good(p[j])
      {
        assert j < |c| ==> p[j] == c[j] && c[j] in c;
      }
    }

    lemma LaterOutside(attach: seq<BlockNode>, i: nat, fork: BlockNode)
      requires i < |attach| && Rooted(fork) && bestChain.Valid() && bestChain.Contents() == Path(fork) + attach[..i + 1]
      requires forall j :: i <= j < |attach| ==> Rooted(attach[j]) && Path(attach[j]) == Path(fork) + attach[..j + 1]
      ensures forall j :: i < j < |attach| ==> attach[j] !in bestChain.Contents()
    {
      forall j | i < j < |attach|
        ensures attach[j] !in bestChain.Contents()
      {
        InBranch(bestChain.Contents(), attach[j]);
        assert |Path(attach[j])| == |Path(fork)| + j + 1;
      }
    }

    method Attach(attach: seq<BlockNode>, ghost fork: BlockNode, ghost n: BlockNode) returns (ok: bool)
      requires Valid() && ToAttach(attach, 0, fork) && Rooted(n) && Path(n) == Path(fork) + attach
      modifies bestChain, bestChain.nodes, attach
      ensures Valid() && (bestChain.nodes == old(bestChain.nodes) || fresh(bestChain.nodes))
      ensures ok ==> bestChain.Contents() == Path(n)
    {
      ValidParts();
      hide *;
      var i := 0;
      while i < |attach|
        invariant 0 <= i <= |attach| && Valid() == true && bestChain.Valid() == true &&
                  ToAttach(attach, i, fork) == true
        invariant bestChain.nodes == old(bestChain.nodes) || fresh(bestChain.nodes)
      {
        ok := AttachNext(attach, i, fork);
        if !ok {
          return;
        }
        i := i + 1;
      }
      ok := true;
      AttachedAll(attach, fork);
    }

    lemma AttachedAll(attach: seq<BlockNode>, fork: BlockNode)
      requires bestChain.Valid() && ToAttach(attach, |attach|, fork)
      ensures Rooted(fork) && bestChain.Contents() == Path(fork) + attach
    {
      assert attach[..|attach|] == attach;
    }

    /** Puts a block with a known parent into the tree, and then, if it can, onto the best branch. */
    method AcceptBlock(block: Block) returns (outcome: Outcome)
      requires Valid() && pool.hash(block) !in blockIndex.index
      modifies blockIndex, bestChain, bestChain.nodes, blockIndex.index.Values
      ensures Valid() && (bestChain.nodes == old(bestChain.nodes) || fresh(bestChain.nodes))
      ensures old(blockIndex.index.Keys) <= blockIndex.index.Keys <= old(blockIndex.index.Keys) + {pool.hash(block)}
      ensures fresh(blockIndex.index.Values - old(blockIndex.index.Values))
      ensures outcome.Accepted? ==> pool.hash(block) in blockIndex.index
      ensures outcome == Crashed <==> block.previousHash !in old(blockIndex.index)
      ensures outcome.Accepted? || outcome == Failed || outcome == Crashed
    {
      var prevNode := blockIndex.LookupNode(block.previousHash);
      if prevNode == null {
        return Crashed;
      }
      var checked: bool := *;
      if !checked {
        return Failed;
      }
      var newNode := AddBlock(block, prevNode);
      var stored: bool := *;
      if !stored {
        return Failed;
      }
      outcome := Choose(block, newNode);
    }

    method AddBlock(block: Block, prevNode: BlockNode) returns (newNode: BlockNode)
      requires Valid() && pool.hash(block) !in blockIndex.index && blockIndex.Indexed(prevNode)
      modifies blockIndex
      ensures Valid() && fresh(newNode) && blockIndex.index == old(blockIndex.index)[pool.hash(block) := newNode]
      ensures newNode.hash == pool.hash(block) && newNode.parent == prevNode && !KnownInvalid(newNode.status)
      ensures newNode !in bestChain.Contents()
    {
      newNode := new BlockNode(pool.hash(block), block.height, prevNode, DATA_STORED);
      blockIndex.AddNode(newNode);
    }

    /** Extends the best branch, leaves it, or reorganises towards the new node. */
    method Choose(block: Block, newNode: BlockNode) returns (outcome: Outcome)
      requires Valid() && blockIndex.Indexed(newNode) && newNode !in bestChain.Contents() &&
               !KnownInvalid(newNode.status)
      requires newNode.parent != null && newNode.parent.hash == block.previousHash
      modifies bestChain, bestChain.nodes, blockIndex.index.Values
      ensures Valid() && (bestChain.nodes == old(bestChain.nodes) || fresh(bestChain.nodes))
      ensures outcome.Accepted? || outcome.Failed?
    {
      ValidParts();
      var tip := bestChain.Tip();
      if block.previousHash == tip.hash {
        assert blockIndex.index[newNode.hash] == newNode;
        var ok := ConnectBlock(newNode);
        if !ok {
          return Failed;
        }
        ExtendsTip(newNode, tip);
        MarkState(newNode);
        return Accepted(true);
      }
      if block.height <= tip.height {
        return Accepted(false);
      }
      var detach, attach, fork := GetReorganizeNodes(newNode);
      var ok := ReorganizeChain(detach, attach, fork, newNode);
      return if ok then Accepted(true) else Failed;
    }

    lemma ExtendsTip(n: BlockNode, tip: BlockNode)
      requires Valid() && blockIndex.Indexed(n) && n.parent != null && n.parent.hash == tip.hash && Good(n)
      requires Rooted(tip) && bestChain.Contents() == Path(tip)
      ensures Rooted(n) && n.parent == tip && forall i :: 0 <= i <= n.height ==> Good(Path(n)[i])
    {
      assert tip in bestChain.Contents();
      assert Path(n) == bestChain.Contents() + [n];
      forall i | 0 <= i <= n.height
        ensures Good(Path(n)[i])
      {
        assert i < n.height ==> Path(n)[i] in bestChain.Contents();
      }
    }

    /** Accepts one orphan, which leaves the pool whatever becomes of it. */
    method AdoptOne(orphan: Orphan) returns (ok: bool)
      requires Whole() && pool.hash(orphan.block) in pool.orphans && orphan.block.previousHash in blockIndex.index
      modifies blockIndex, bestChain, bestChain.nodes, blockIndex.index.Values, pool
      ensures Whole() && (bestChain.nodes == old(bestChain.nodes) || fresh(bestChain.nodes))
      ensures fresh(blockIndex.index.Values - old(blockIndex.index.Values))
      ensures old(blockIndex.index.Keys) <= blockIndex.index.Keys
      ensures pool.orphans == old(pool.orphans) - {pool.hash(orphan.block)}
      ensures ok ==> pool.hash(orphan.block) in blockIndex.index
    {
      pool.RemoveOrphanBlock(orphan);
      var outcome := AcceptBlock(orphan.block);
      ok := outcome.Accepted?;
    }

    method AdoptChildren(processHash: Hash) returns (ok: bool, more: seq<Hash>)
      requires Whole() && processHash in blockIndex.index
      modifies blockIndex, bestChain, bestChain.nodes, blockIndex.index.Values, pool
      ensures Whole() && (bestChain.nodes == old(bestChain.nodes) || fresh(bestChain.nodes))
      ensures fresh(blockIndex.index.Values - old(blockIndex.index.Values))
      ensures old(blockIndex.index.Keys) <= blockIndex.index.Keys
      ensures pool.orphans.Keys <= old(pool.orphans.Keys)
      ensures forall h :: h in pool.orphans ==> pool.orphans[h] == old(pool.orphans)[h]
      ensures forall h :: h in more ==> h in blockIndex.index
      ensures ok ==> |pool.orphans| + |more| == old(|pool.orphans|)
      ensures ok ==> forall h :: h in old(pool.orphans) && h !in pool.orphans ==> h in more
      ensures ok ==> forall h :: h in pool.orphans ==> pool.orphans[h].block.previousHash != processHash
    {
      hide *;
      more := [];
      var i := 0;
      while processHash in pool.prevOrphans && i < |pool.prevOrphans[processHash]|
        invariant i == 0 && Whole() && processHash in blockIndex.index
        invariant bestChain.nodes == old(bestChain.nodes) || fresh(bestChain.nodes)
        invariant fresh(blockIndex.index.Values - old(blockIndex.index.Values))
        invariant old(blockIndex.index.Keys) <= blockIndex.index.Keys
        invariant pool.orphans.Keys <= old(pool.orphans.Keys)
        invariant forall h :: h in pool.orphans ==> pool.orphans[h] == old(pool.orphans)[h]
        invariant forall h :: h in more ==> h in blockIndex.index
        invariant |pool.orphans| + |more| == old(|pool.orphans|)
        invariant forall h :: h in old(pool.orphans) && h !in pool.orphans ==> h in more
        decreases |pool.orphans|
      {
        var orphan := pool.prevOrphans[processHash][i];
        FirstListed(processHash);
        var orphanHash := pool.hash(orphan.block);
        OneLess(pool.orphans, orphanHash);
        i := i - 1;
        ok := AdoptOne(orphan);
        if !ok {
          return;
        }
        more := more + [orphanHash];
        i := i + 1;
      }
      ok := true;
      NoneListed(processHash);
    }

    lemma FirstListed(p: Hash)
      requires Whole() && p in pool.prevOrphans
      ensures pool.prevOrphans[p] != []
      ensures var o := pool.prevOrphans[p][0]; o.block.previousHash == p && pool.hash(o.block) in pool.orphans
    {
      assert ListFits(pool.hash, pool.orphans, p, pool.prevOrphans[p]);
      assert Listed(pool.hash, pool.orphans, p, pool.prevOrphans[p][0]);
    }

    lemma NoneListed(p: Hash)
      requires Whole() && (p in pool.prevOrphans ==> pool.prevOrphans[p] == [])
      ensures forall h :: h in pool.orphans ==> pool.orphans[h].block.previousHash != p
    {
      forall h | h in pool.orphans
        ensures pool.orphans[h].block.previousHash != p
      {
        assert IsListed(pool.prevOrphans, pool.orphans[h]);
      }
    }

    /** Accepts the orphans that depend on a block, and those that depend on them, one after another. */
    method ProcessOrphans(hash: Hash) returns (ok: bool, ghost adopted: set<Hash>)
      requires Whole() && hash in blockIndex.index
      modifies blockIndex, bestChain, bestChain.nodes, blockIndex.index.Values, pool
      ensures Whole() && hash in adopted && adopted <= blockIndex.index.Keys
      ensures bestChain.nodes == old(bestChain.nodes) || fresh(bestChain.nodes)
      ensures fresh(blockIndex.index.Values - old(blockIndex.index.Values))
      ensures pool.orphans.Keys <= old(pool.orphans.Keys)
      ensures ok ==> forall h :: h in pool.orphans ==> pool.orphans[h].block.previousHash !in adopted
      ensures ok ==> old(pool.orphans.Keys) - pool.orphans.Keys <= adopted
    {
      hide *;
      var processHashes := [hash];
      adopted := {hash};
      while |processHashes| > 0
        invariant Whole() && pool.orphans.Keys <= old(pool.orphans.Keys)
        invariant bestChain.nodes == old(bestChain.nodes) || fresh(bestChain.nodes)
        invariant fresh(blockIndex.index.Values - old(blockIndex.index.Values))
        invariant hash in adopted && adopted <= blockIndex.index.Keys
        invariant forall h :: h in processHashes ==> h in adopted
        invariant forall h :: h in pool.orphans && pool.orphans[h].block.previousHash in adopted ==>
          pool.orphans[h].block.previousHash in processHashes
        invariant old(pool.orphans.Keys) - pool.orphans.Keys <= adopted
        decreases |pool.orphans|, |processHashes|
      {
        var processHash := processHashes[0];
        processHashes := processHashes[1..];
        var more;
        ok, more := AdoptChildren(processHash);
        if !ok {
          return;
        }
        processHashes := processHashes + more;
        adopted := adopted + set h | h in more;
      }
      ok := true;
    }

    lemma WholeParts()
      requires Whole()
      ensures Valid() && pool.Valid() && pool.orphans.Keys !! blockIndex.index.Keys
    {
    }

    lemma WholeFrom()
      requires Valid() && pool.Valid() && pool.orphans.Keys !! blockIndex.index.Keys
      ensures Whole()
    {
    }

    /** Accepts a new block and then the orphans waiting for it. */
    method AcceptAndAdopt(block: Block) returns (outcome: Outcome)
      requires Whole() && pool.hash(block) !in blockIndex.index && pool.hash(block) !in pool.orphans
      modifies blockIndex, bestChain, bestChain.nodes, blockIndex.index.Values, pool
      ensures Whole() && (bestChain.nodes == old(bestChain.nodes) || fresh(bestChain.nodes))
      ensures fresh(blockIndex.index.Values - old(blockIndex.index.Values))
      ensures outcome != Orphaned && outcome != Exists
      ensures outcome == Crashed <==> block.previousHash !in old(blockIndex.index)
      ensures outcome.Accepted? ==> pool.hash(block) in blockIndex.index
    {
      WholeParts();
      hide *;
      outcome := AcceptBlock(block);
      WholeFrom();
      if !outcome.Accepted? {
        return;
      }
      var ok, adopted := ProcessOrphans(pool.hash(block));
      if !ok {
        return Failed;
      }
    }

    /**
     A block arrives: known, an orphan, or to be accepted together with the orphans waiting for it. A new
     block that names the zero hash as its parent is no orphan, so its missing parent is dereferenced.
     */
    method ProcessBlock(block: Block, expiration: int) returns (outcome: Outcome)
      requires Whole()
      modifies blockIndex, bestChain, bestChain.nodes, blockIndex.index.Values, pool
      ensures Whole() && (bestChain.nodes == old(bestChain.nodes) || fresh(bestChain.nodes))
      ensures fresh(blockIndex.index.Values - old(blockIndex.index.Values))
      ensures outcome == Orphaned ==>
        && pool.hash(block) in pool.orphans && bestChain.Contents() == old(bestChain.Contents())
        && blockIndex.index == old(blockIndex.index)
      ensures outcome == Exists <==> pool.hash(block) in old(blockIndex.index) || pool.hash(block) in old(pool.orphans)
      ensures outcome == Orphaned <==>
        && pool.hash(block) !in old(blockIndex.index) && pool.hash(block) !in old(pool.orphans)
        && block.previousHash !in old(blockIndex.index) && block.previousHash != ZERO_HASH
      ensures outcome == Crashed <==>
        && pool.hash(block) !in old(blockIndex.index) && pool.hash(block) !in old(pool.orphans)
        && block.previousHash == ZERO_HASH && ZERO_HASH !in old(blockIndex.index)
      ensures outcome.Accepted? ==> pool.hash(block) in blockIndex.index
    {
      WholeParts();
      hide *;
      var blockHash := pool.hash(block);
      if blockHash in blockIndex.index {
        return Exists;
      }
      if blockHash in pool.orphans {
        return Exists;
      }
      var prevHash := block.previousHash;
      if prevHash !in blockIndex.index && prevHash != ZERO_HASH {
        pool.AddOrphanBlock(block, expiration);
        WholeFrom();
        return Orphaned;
      }
      outcome := AcceptAndAdopt(block);
    }

    /** The view is the parent path from genesis to tip, heights are positions, and all of it is good. */
    lemma BestBranch(i: nat)
      requires Valid() && i < |bestChain.Contents()|
      ensures var n := bestChain.Contents()[i];
              && n != null && n.height == i && blockIndex.Indexed(n)
              && KnownValid(n.status) && !KnownInvalid(n.status)
              && n.parent == (if i == 0 then null else bestChain.Contents()[i - 1])
              && (i == 0 ==> n == blockIndex.genesis)
    {
      var c := bestChain.Contents();
      var tip := c[|c| - 1];
      assert c[i] in c && tip in c;
      blockIndex.BranchIndexed(tip);
      PathShape(tip);
      PathStep(tip, c[i]);
    }
  }

  /** A service from its genesis block, after any blocks, whatever validators and storage did. */
  method Run(hash: Block -> Hash, genesisHash: Hash, blocks: seq<Block>) returns (s: ChainService)
    requires Injective(hash)
    ensures s.Whole()
  {
    hide *;
    s := new ChainService(hash, genesisHash);
    var i := 0;
    while i < |blocks|
      invariant 0 <= i <= |blocks| && s.Whole()
      invariant fresh(s) && fresh(s.blockIndex) && fresh(s.bestChain) && fresh(s.bestChain.nodes) && fresh(s.pool)
      invariant fresh(s.blockIndex.index.Values)
    {
      var expiration: int := *;
      var _ := s.ProcessBlock(blocks[i], expiration);
      i := i + 1;
    }
  }

  /** The first block a new service sees makes it dereference a missing parent, if it names the zero hash. */
  method ZeroParentCrashes(hash: Block -> Hash, genesisHash: Hash, block: Block, expiration: int)
    returns (outcome: Outcome)
    requires Injective(hash) && genesisHash != ZERO_HASH
    requires hash(block) != genesisHash && block.previousHash == ZERO_HASH
    ensures outcome == Crashed
  {
    var s := new ChainService(hash, genesisHash);
    outcome := s.ProcessBlock(block, expiration);
  }

  lemma OneLess(m: Pool, h: Hash)
    requires h in m
    ensures |m - {h}| == |m| - 1
  {
    assert (m - {h}).Keys == m.Keys - {h};
    assert |m| == |m.Keys|;
  }

  const ZERO_HASH: Hash := 0

  datatype Outcome = Accepted(inMainChain: bool) | Orphaned | Exists | Failed | Crashed

  lemma TipAbove(c: seq<BlockNode?>, fork: BlockNode, tip: BlockNode)
    requires Rooted(tip) && Rooted(fork) && c == Path(tip) && fork.height < |c| && c[fork.height] == fork
    ensures OnPath(fork, tip) && |c| == tip.height + 1
  {
    PathShape(tip);
  }

  /** The nodes from a tip down to, and without, a node of its branch. */
  method WalkBack(tip: BlockNode, fork: BlockNode) returns (walked: seq<BlockNode>)
    requires Rooted(tip) && Rooted(fork) && OnPath(fork, tip)
    ensures |walked| == tip.height - fork.height
    ensures forall i :: 0 <= i < |walked| ==> walked[i] == Path(tip)[tip.height - i]
  {
    hide Path, Rooted;
    ghost var p := Path(tip);
    walked := [];
    var node: BlockNode? := tip;
    while node != null && node != fork
      invariant node != null && Rooted(node) && fork.height <= node.height <= tip.height && node == p[node.height]
      invariant |walked| == tip.height - node.height
      invariant forall i :: 0 <= i < |walked| ==> walked[i] == p[tip.height - i]
      decreases if node == null then -1 else node.height as int
    {
      walked := walked + [node];
      PathStep(tip, node);
      node := node.parent;
    }
  }

  lemma AttachPaths(fork: BlockNode, attach: seq<BlockNode>, n: BlockNode)
    requires Rooted(fork) && Rooted(n) && Path(n) == Path(fork) + attach
    ensures forall j :: 0 <= j < |attach| ==>
      && Rooted(attach[j]) && attach[j].height == fork.height + 1 + j && attach[j] == Path(n)[fork.height + 1 + j]
      && Path(attach[j]) == Path(fork) + attach[..j + 1]
  {
    PathShape(n);
    hide Path, Rooted;
    forall j | 0 <= j < |attach|
      ensures Rooted(attach[j]) && attach[j].height == fork.height + 1 + j && attach[j] == Path(n)[fork.height + 1 + j]
      ensures Path(attach[j]) == Path(fork) + attach[..j + 1]
    {
      var k := fork.height + 1 + j;
      assert attach[j] == Path(n)[k];
      assert Path(n)[..k + 1] == Path(fork) + attach[..j + 1];
    }
  }

  lemma AttachIsRest(n: BlockNode, fork: BlockNode, attach: seq<BlockNode>)
    requires Rooted(n) && Rooted(fork) && OnPath(fork, n) && |attach| == n.height - fork.height
    requires attach == Path(n)[n.height + 1 - |attach|..]
    ensures Path(fork) + attach == Path(n)
  {
    PathShape(n);
    assert Path(fork) == Path(n)[..fork.height + 1];
  }
}
