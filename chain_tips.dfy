/** How `updateTips` moves the tips when a block is attached, and what
    `MaxChainLength` measures. */
module ChainTips {
  import opened Blocks
  import opened ChainModel
  import opened ChainInv

  /** Genesis is never a node: every node hash ranks below genesis. */
  lemma GenesisNotNode(H: Hashing, L: Links, s: State)
    requires WellFormed(H, L, s)
    ensures s.ghash !in s.nodes
  {
    forall k | k in s.nodes
      ensures k != s.ghash
    {
      assert NodeOk(H, L, s.ghash, s.nodes, k);
    }
  }

  /** The greatest tip length is the greatest length of any node (zero for
      an empty tree). */
  lemma MaxLengthIsLongestNode(H: Hashing, L: Links, s: State)
    requires Inv(H, L, s)
    ensures forall k :: k in s.nodes ==> s.nodes[k].length <= MaxLength(s.tips)
    ensures s.nodes == map[] ==> MaxLength(s.tips) == 0
    ensures s.nodes != map[] ==> exists k :: k in s.nodes && s.nodes[k].length == MaxLength(s.tips)
  {
    if s.nodes != map[] {
      var t :| t in s.tips;
      assert s.nodes[t].length == MaxLength(s.tips);
    }
  }

  /** The new node is at most one longer than the longest chain. */
  lemma NewNodeAtMostOneLonger(H: Hashing, L: Links, s: State, b: Block)
    requires Inv(H, L, s)
    requires Linked(H, L, s.ghash, b) && !IsOrphan(s, b)
    ensures 1 <= NewNodeFor(s, b).length <= MaxLength(s.tips) + 1
  {
    var p := b.prevHash;
    if p != s.ghash {
      assert LengthOk(s.ghash, s.nodes, p);
    }
  }

  /** Extending a longest chain: the new node becomes the only tip. */
  lemma AttachExtendsLongest(H: Hashing, L: Links, s: State, b: Block)
    requires Inv(H, L, s)
    requires Linked(H, L, s.ghash, b) && !IsOrphan(s, b)
    requires NewNodeFor(s, b).length == MaxLength(s.tips) + 1
    ensures var r := Attach(H, s, b);
      && r.tips == map[Hash(H, b) := NewNodeFor(s, b)]
      && MaxLength(r.tips) == MaxLength(s.tips) + 1
  {
    var n := NewNodeFor(s, b);
    var h := Hash(H, b);
    var t := TipCandidates(H, s, b);
    var M := MaxLength(s.tips);
    assert forall k :: k in t && k != h ==> t[k].length <= M;
    assert h in t && t[h].length == M + 1;
    assert IsMaxLength(t, M + 1);
    MaxLengthUnique(t, MaxLength(t), M + 1);
    PruneToLongest(t, h, M + 1);
    var r := PruneTipsLessThan(t, M + 1);
    assert IsMaxLength(r, M + 1);
    MaxLengthUnique(r, MaxLength(r), M + 1);
  }

  /** Pruning to length `m` when only `h` has that length keeps `h` alone. */
  lemma PruneToLongest(t: map<string, Node>, h: string, m: int)
    requires h in t && t[h].length == m
    requires forall k :: k in t && k != h ==> t[k].length < m
    ensures PruneTipsLessThan(t, m) == map[h := t[h]]
  {
  }

  /** A block as long as the longest chain (a fork, or a known hash again):
      it joins the tips and all other tips stay. */
  lemma AttachForksAtMax(H: Hashing, L: Links, s: State, b: Block)
    requires Inv(H, L, s)
    requires Linked(H, L, s.ghash, b) && !IsOrphan(s, b)
    requires NewNodeFor(s, b).length == MaxLength(s.tips)
    ensures var r := Attach(H, s, b);
      && r.tips == s.tips[Hash(H, b) := NewNodeFor(s, b)]
      && MaxLength(r.tips) == MaxLength(s.tips)
  {
    var n := NewNodeFor(s, b);
    var h := Hash(H, b);
    var p := b.prevHash;
    var t := TipCandidates(H, s, b);
    var M := MaxLength(s.tips);
    GenesisNotNode(H, L, s);
    assert p !in s.tips;
    assert t == s.tips[h := n];
    assert h in t && t[h].length == M;
    assert IsMaxLength(t, M);
    MaxLengthUnique(t, MaxLength(t), M);
    var r := PruneTipsLessThan(t, M);
    assert r == t;
  }

  /** A block shorter than the longest chain neither has the tip as parent
      nor overwrites a tip. */
  lemma BelowMaxCandidates(H: Hashing, L: Links, s: State, b: Block)
    requires Inv(H, L, s)
    requires Linked(H, L, s.ghash, b) && !IsOrphan(s, b)
    requires NewNodeFor(s, b).length < MaxLength(s.tips)
    ensures Hash(H, b) !in s.tips
    ensures TipCandidates(H, s, b) == s.tips[Hash(H, b) := NewNodeFor(s, b)]
  {
    var h := Hash(H, b);
    var M := MaxLength(s.tips);
    GenesisNotNode(H, L, s);
    assert b.prevHash !in s.tips;
    if h in s.nodes {
      OverwriteKeepsParent(H, L, s, b);
      assert s.nodes[h].length < M;
    }
  }

  /** Pruning a new shorter entry away from tips that all have length `m`
      gives those tips back. */
  lemma PruneDropsShorter(tips: map<string, Node>, h: string, n: Node, m: int)
    requires h !in tips && n.length < m
    requires forall k :: k in tips ==> tips[k].length == m
    ensures PruneTipsLessThan(tips[h := n], m) == tips
  {
  }

  /** A block shorter than the longest chain: the tips do not change. */
  lemma AttachBelowMax(H: Hashing, L: Links, s: State, b: Block)
    requires Inv(H, L, s)
    requires Linked(H, L, s.ghash, b) && !IsOrphan(s, b)
    requires NewNodeFor(s, b).length < MaxLength(s.tips)
    ensures Attach(H, s, b).tips == s.tips
  {
    var n := NewNodeFor(s, b);
    var h := Hash(H, b);
    var t := TipCandidates(H, s, b);
    var M := MaxLength(s.tips);
    BelowMaxCandidates(H, L, s, b);
    var k :| k in s.tips && s.tips[k].length == M;
    assert k in t && t[k].length == M;
    assert IsMaxLength(t, M);
    MaxLengthUnique(t, MaxLength(t), M);
    PruneDropsShorter(s.tips, h, n, M);
  }
}
