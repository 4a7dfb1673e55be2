/** The `BlockChain` struct of blockchain.go as a class whose methods update
    its fields in place. Each state-changing method is proved to move the
    abstract state `Abs()` exactly as the corresponding function of
    ChainModel does; the public entry points also keep the invariant
    `Valid()`. */
module BlockChainImpl {
  import opened Blocks
  import opened ChainModel
  import opened ChainInv
  import opened ChainTips
  import opened ChainQueries

  /** Every tip is stored under its own block's hash. */
  ghost predicate TipsKeyed(H: Hashing, tips: map<string, Node>)
  {
    forall k :: k in tips ==> Hash(H, tips[k].block) == k
  }

  /** Every block of `cs` is a child of `h` meeting the linking assumption. */
  ghost predicate Waiting(H: Hashing, L: Links, ghash: string, cs: seq<Block>, h: string)
  {
    forall c :: c in cs ==> c.prevHash == h && Linked(H, L, ghash, c)
  }

  lemma InvTipsKeyed(H: Hashing, L: Links, s: State)
    requires Inv(H, L, s)
    ensures TipsKeyed(H, s.tips)
  {
    forall k | k in s.tips
      ensures Hash(H, s.tips[k].block) == k
    {
      assert NodeOk(H, L, s.ghash, s.nodes, k);
    }
  }

  /** The first loop of `addFromPurgatoryBlocksWithPrevHash`: the blocks of
      `bs` whose parent is `hash`, and the others, each in their order. */
  method SplitByParent(bs: seq<Block>, hash: string) returns (children: seq<Block>, others: seq<Block>)
    ensures children == Select(bs, hash, true)
    ensures others == Select(bs, hash, false)
  {
    children, others := [], [];
    var i := 0;
    while i < |bs|
      invariant 0 <= i <= |bs|
      invariant children == Select(bs[..i], hash, true)
      invariant others == Select(bs[..i], hash, false)
    {
      var block := bs[i];
      assert bs[..i + 1][..i] == bs[..i];
      if block.prevHash == hash {
        children := children + [block];
      } else {
        others := others + [block];
      }
      i := i + 1;
    }
    assert bs[..i] == bs;
  }

  class BlockChain {
    /** The hash and rendering primitives the blocks are hashed with. */
    const hashing: Hashing
    /** The ranking witness for the blocks this chain is given. */
    ghost const links: Links
    const ghash: string
    var ghashChildren: seq<string>
    var nodes: map<string, Node>
    var tips: map<string, Node>
    var purgatory: seq<Block>

    function Abs(): State
      reads this
    {
      State(ghash, ghashChildren, nodes, tips, purgatory)
    }

    ghost predicate Valid()
      reads this
    {
      Inv(hashing, links, Abs())
    }

    /** `NewBlockChain`: an empty tree below `ghash`. */
    constructor (H: Hashing, ghost L: Links, ghash: string)
      ensures hashing == H && links == L
      ensures Abs() == NewBlockChain(ghash)
      ensures Valid()
    {
      hashing := H;
      links := L;
      this.ghash := ghash;
      ghashChildren := [];
      nodes := map[];
      tips := map[];
      purgatory := [];
      new;
      NewBlockChainInv(H, L, ghash);
    }

    /** `ChainTip`: genesis for an empty tree, else the first tip met with
        the fewest conflicts with `currentKeys`. */
    method ChainTip(currentKeys: seq<string>) returns (hash: string)
      ensures IsChainTip(Abs(), currentKeys, hash)
    {
      if |tips| == 0 {
        assert tips == map[];
        return ghash;
      }
      var conflictMin := MaxInt32;
      hash := "";
      var rest := tips.Keys;
      while rest != {}
        invariant rest <= tips.Keys
        invariant conflictMin <= MaxInt32
        invariant (hash == "" && conflictMin == MaxInt32) ||
          (hash in tips && conflictMin < MaxInt32 && conflictMin == Conflicts(currentKeys, tips[hash].block.txn))
        invariant forall k :: k in tips && k !in rest ==> conflictMin <= Conflicts(currentKeys, tips[k].block.txn)
        decreases rest
      {
        var h :| h in rest;
        var node := tips[h];
        var conflicts := CountKeyConflicts(currentKeys, node);
        if conflicts < conflictMin {
          conflictMin := conflicts;
          hash := h;
        }
        rest := rest - {h};
      }
    }

    /** `GetChildren`: genesis for "", else the children recorded for the
        given parent, each a node whose parent hash is that parent. */
    method GetChildren(parentHash: string) returns (children: seq<string>)
      requires parentHash == "" || parentHash == ghash || parentHash in nodes
      ensures parentHash == "" ==> children == [ghash]
      ensures parentHash != "" ==> children == ChildrenOf(Abs(), parentHash)
      ensures Valid() && parentHash != "" ==>
        forall c :: c in children ==> c in nodes && nodes[c].block.prevHash == parentHash
    {
      if parentHash == "" {
        return [ghash];
      }
      if parentHash == ghash {
        return ghashChildren;
      }
      var node := nodes[parentHash];
      return node.children;
    }

    /** `Get`: the value of `key` written by the nearest block on the chain
        that ends at the tip `ChainTip(nil)` picks, or "". */
    method Get(key: string) returns (value: string)
      requires Valid()
      ensures exists tip :: (IsChainTip(Abs(), [], tip) && (tip == ghash || tip in nodes)
        && NearestValue(Abs(), Ancestry(hashing, links, Abs(), tip), key, value))
    {
      var tip := ChainTip([]);
      ChainTipIsLongest(hashing, links, Abs(), [], tip);
      value := GetHelper(hashing, links, Abs(), tip, key);
      GetHelperNearest(hashing, links, Abs(), tip, key);
    }

    /** `GetTxID`: the chain length of a node, its number of blocks back to
        genesis. */
    method GetTxID(bhash: string) returns (id: int)
      requires Valid() && bhash in nodes
      ensures id == nodes[bhash].length
      ensures id >= 1 && id == |Ancestry(hashing, links, Abs(), bhash)|
    {
      id := nodes[bhash].length;
      assert LengthOk(ghash, nodes, bhash);
      LengthIsAncestry(hashing, links, Abs(), bhash);
    }

    /** `IntegrateBlock`. */
    method IntegrateBlock(block: Block)
      requires Valid() && Linked(hashing, links, ghash, block)
      modifies this
      ensures Valid()
      ensures Abs() == Integrate(hashing, links, old(Abs()), block)
      decreases links.rank(block.prevHash), 0, 0
    {
      var ok := block.prevHash in nodes;
      if !ok && block.prevHash != ghash {
        AddToPurgatory(block);
        IntegrateInv(hashing, links, old(Abs()), block);
        return;
      }
      var prevLength;
      if block.prevHash == ghash {
        prevLength := 0;
      } else {
        prevLength := PrevNodeChainLength(block);
      }
      var n := NewNode(prevLength, block);
      var h := Hash(hashing, block);
      InvTipsKeyed(hashing, links, old(Abs()));
      nodes := nodes[h := n];
      AddAsChild(block);
      UpdateTips(n);
      assert Abs() == Attach(hashing, old(Abs()), block);
      AttachInv(hashing, links, old(Abs()), block);
      AddFromPurgatoryBlocksWithPrevHash(h);
    }

    /** `IsValidated`: false for a parked block; otherwise whether some
        downward path from the node has at least `validateNum` blocks. */
    method IsValidated(bhash: string, validateNum: int) returns (validated: bool)
      requires Valid()
      requires InPurgatory(hashing, Abs(), bhash) || bhash in nodes
      ensures validated <==> (!InPurgatory(hashing, Abs(), bhash) &&
        exists p :: DescPath(Abs(), bhash, p) && |p| >= validateNum)
    {
      var parked := IsInPurgatory(bhash);
      if parked {
        return false;
      }
      var count := ProgenyCount(bhash);
      ValidatedIff(hashing, links, Abs(), bhash, validateNum);
      return count >= validateNum;
    }

    /** `IsOnLongestChain`: false for a parked block; otherwise whether some
        downward path from the node reaches the greatest chain length. */
    method IsOnLongestChain(bhash: string) returns (onLongest: bool)
      requires Valid()
      requires InPurgatory(hashing, Abs(), bhash) || bhash in nodes
      ensures onLongest <==> (!InPurgatory(hashing, Abs(), bhash) &&
        exists p :: DescPath(Abs(), bhash, p) && nodes[bhash].length + |p| == MaxLength(tips))
    {
      var parked := IsInPurgatory(bhash);
      if parked {
        return false;
      }
      var length := nodes[bhash].length;
      var count := ProgenyCount(bhash);
      var max := MaxChainLength();
      LongestChainIff(hashing, links, Abs(), bhash);
      return length + count == max;
    }

    /** `MaxChainLength`: the greatest tip length, which is the greatest
        length of any node, or 0. */
    method MaxChainLength() returns (max: int)
      ensures max == MaxLength(tips)
      ensures Valid() ==> forall k :: k in nodes ==> nodes[k].length <= max
      ensures Valid() && nodes != map[] ==> exists k :: k in nodes && nodes[k].length == max
    {
      max := 0;
      var rest := tips.Keys;
      ghost var seen: map<string, Node> := map[];
      while rest != {}
        invariant rest <= tips.Keys
        invariant seen.Keys == tips.Keys - rest
        invariant forall k :: k in seen ==> seen[k] == tips[k]
        invariant IsMaxLength(seen, max)
        decreases rest
      {
        var h :| h in rest;
        var node := tips[h];
        if node.length > max {
          max := node.length;
        }
        seen := seen[h := node];
        rest := rest - {h};
      }
      assert seen == tips;
      MaxLengthUnique(tips, max, MaxLength(tips));
      if Valid() {
        MaxLengthIsLongestNode(hashing, links, Abs());
      }
    }

    /** `addToPurgatory`. */
    method AddToPurgatory(block: Block)
      modifies this
      ensures Abs() == old(Abs()).(purgatory := old(purgatory) + [block])
    {
      purgatory := purgatory + [block];
    }

    /** `addFromPurgatoryBlocksWithPrevHash`: split the purgatory into the
        blocks waiting for `hash` and the others, integrate the former in
        order, then set the purgatory to the latter. */
    method AddFromPurgatoryBlocksWithPrevHash(hash: string)
      requires Valid()
      modifies this
      ensures Valid()
      ensures Abs() == Replay(hashing, links, old(Abs()), hash)
      decreases links.rank(hash), 2, 0
    {
      var children, newPurgatory := SplitByParent(purgatory, hash);
      ghost var s0 := Abs();
      assert Waiting(hashing, links, ghash, children, hash);
      assert AllLinked(hashing, links, ghash, newPurgatory);
      var j := 0;
      while j < |children|
        invariant 0 <= j <= |children|
        invariant Valid()
        invariant IntegrateAll(hashing, links, Abs(), children[j..], hash) ==
          IntegrateAll(hashing, links, s0, children, hash)
      {
        assert children[j..][1..] == children[j + 1..];
        IntegrateBlock(children[j]);
        j := j + 1;
      }
      assert Abs() == IntegrateAll(hashing, links, s0, children, hash) by {
        assert children[j..] == [];
      }
      WithPurgatoryInv(hashing, links, Abs(), newPurgatory);
      purgatory := newPurgatory;
    }

    /** `addAsChild`: append the block's hash to its parent's children. */
    method AddAsChild(block: Block)
      requires block.prevHash == ghash || block.prevHash in nodes
      modifies this
      ensures Abs() == ChainModel.AddAsChild(hashing, old(Abs()), block)
    {
      var parent := block.prevHash;
      if parent == ghash {
        ghashChildren := ghashChildren + [Hash(hashing, block)];
      } else {
        var node := nodes[parent];
        nodes := nodes[parent := node.(children := node.children + [Hash(hashing, block)])];
      }
    }

    /** `countKeyConflicts`: how many of `currentKeys` the node's block
        writes (a key listed twice is counted twice). */
    method CountKeyConflicts(currentKeys: seq<string>, n: Node) returns (count: int)
      ensures count == Conflicts(currentKeys, n.block.txn)
      ensures 0 <= count <= |currentKeys|
      ensures count == 0 <==> forall i :: 0 <= i < |currentKeys| ==> currentKeys[i] !in n.block.txn
    {
      count := 0;
      var i := 0;
      while i < |currentKeys|
        invariant 0 <= i <= |currentKeys|
        invariant count == Conflicts(currentKeys[..i], n.block.txn)
      {
        assert currentKeys[..i + 1][..i] == currentKeys[..i];
        if currentKeys[i] in n.block.txn {
          count := count + 1;
        }
        i := i + 1;
      }
      assert currentKeys[..i] == currentKeys;
      ConflictsBounds(currentKeys, n.block.txn);
    }

    /** `isInPurgatory`: whether some parked block has hash `bhash`. */
    method IsInPurgatory(bhash: string) returns (found: bool)
      ensures found <==> InPurgatory(hashing, Abs(), bhash)
    {
      var i := 0;
      while i < |purgatory|
        invariant 0 <= i <= |purgatory|
        invariant forall b :: b in purgatory[..i] ==> Hash(hashing, b) != bhash
      {
        if bhash == Hash(hashing, purgatory[i]) {
          assert purgatory[i] in purgatory;
          return true;
        }
        assert purgatory[..i + 1] == purgatory[..i] + [purgatory[i]];
        i := i + 1;
      }
      assert purgatory[..i] == purgatory;
      return false;
    }

    /** `prevNodeChainLength`: the parent's length, -1 when the parent is
        not a node. */
    method PrevNodeChainLength(block: Block) returns (length: int)
      ensures length == ChainModel.PrevNodeChainLength(Abs(), block)
      ensures Valid() && block.prevHash in nodes ==> length >= 1
    {
      if block.prevHash !in nodes {
        return -1;
      }
      length := nodes[block.prevHash].length;
      if Valid() {
        assert LengthOk(ghash, nodes, block.prevHash);
      }
    }

    /** `progenyCount`: the length of the longest downward path. */
    method ProgenyCount(bhash: string) returns (count: int)
      requires Valid() && bhash in nodes
      ensures count == ChainModel.ProgenyCount(hashing, links, Abs(), bhash)
      ensures forall p :: DescPath(Abs(), bhash, p) ==> |p| <= count
      ensures exists p :: DescPath(Abs(), bhash, p) && |p| == count
    {
      count := ProgenyCountHelper(bhash, 0);
      ProgenyIsLongestPath(hashing, links, Abs(), bhash);
    }

    /** `progenyCountHelper`: a leaf counts `current`; an inner node one
        more than the largest count among its children. */
    method ProgenyCountHelper(bhash: string, current: int) returns (count: int)
      requires Valid() && bhash in nodes
      ensures count == ChainModel.ProgenyCountHelper(hashing, links, Abs(), bhash, current)
      decreases links.rank(bhash)
    {
      var children := nodes[bhash].children;
      if |children| == 0 {
        return current;
      }
      ChildRanks(hashing, links, Abs(), bhash);
      var max := 0;
      var i := 0;
      while i < |children|
        invariant 0 <= i <= |children|
        invariant max == MaxOverChildren(hashing, links, Abs(), children[..i], bhash, current)
      {
        assert children[..i + 1][..i] == children[..i];
        var c := ProgenyCountHelper(children[i], current);
        if c > max {
          max := c;
        }
        i := i + 1;
      }
      assert children[..i] == children;
      return max + 1;
    }

    /** `pruneTipsLessThan`: keep the tips of the given length, each stored
        under its block's hash. */
    method PruneTipsLessThan(length: int)
      requires TipsKeyed(hashing, tips)
      modifies this
      ensures Abs() == old(Abs()).(tips := ChainModel.PruneTipsLessThan(old(tips), length))
    {
      var newTips: map<string, Node> := map[];
      var rest := tips.Keys;
      while rest != {}
        invariant rest <= tips.Keys
        invariant newTips.Keys == set k | k in tips && k !in rest && tips[k].length == length
        invariant forall k :: k in newTips ==> newTips[k] == tips[k]
        decreases rest
      {
        var h :| h in rest;
        var node := tips[h];
        if node.length == length {
          newTips := newTips[Hash(hashing, node.block) := node];
        }
        rest := rest - {h};
      }
      assert newTips == ChainModel.PruneTipsLessThan(tips, length);
      tips := newTips;
    }

    /** `updateTips`: drop the parent, add the new node, keep the longest. */
    method UpdateTips(n: Node)
      requires TipsKeyed(hashing, tips)
      modifies this
      ensures Abs() == old(Abs()).(tips := ChainModel.UpdateTips(hashing, old(tips), n))
    {
      tips := tips - {n.block.prevHash};
      tips := tips[Hash(hashing, n.block) := n];
      var length := MaxChainLength();
      PruneTipsLessThan(length);
    }
  }
}
