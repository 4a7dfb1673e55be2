/** `IntegrateBlock` keeps the block tree's invariant (`ChainModel.Inv`):
    the tree stays well formed, every node's length is its parent's plus one,
    and the tips are exactly the nodes of the greatest length, all of them
    childless. */
module ChainInv {
  import opened Blocks
  import opened ChainModel

  /** The node that `Attach` creates for `b`. */
  function NewNodeFor(s: State, b: Block): Node
  {
    NewNode(if b.prevHash == s.ghash then 0 else PrevNodeChainLength(s, b), b)
  }

  /** What `Attach` changes: one new (or overwritten) node, one appended
      child hash, and the tips. */
  lemma AttachShape(H: Hashing, L: Links, s: State, b: Block)
    requires Linked(H, L, s.ghash, b) && !IsOrphan(s, b)
    ensures var r := Attach(H, s, b);
      var h := Hash(H, b);
      var p := b.prevHash;
      && h != p && h != s.ghash
      && r.ghash == s.ghash && r.purgatory == s.purgatory
      && r.nodes.Keys == s.nodes.Keys + {h}
      && r.nodes[h] == NewNodeFor(s, b)
      && (p != s.ghash ==> r.nodes[p] == s.nodes[p].(children := s.nodes[p].children + [h]))
      && (forall k :: k in s.nodes && k != h && k != p ==> r.nodes[k] == s.nodes[k])
      && r.ghashChildren == (if p == s.ghash then s.ghashChildren + [h] else s.ghashChildren)
      && r.tips == UpdateTips(H, s.tips, NewNodeFor(s, b))
  {
  }

  /** Re-integrating a known hash keeps the parent and the length of the
      node it overwrites. */
  lemma OverwriteKeepsParent(H: Hashing, L: Links, s: State, b: Block)
    requires WellFormed(H, L, s) && (forall k {:trigger LengthOk(s.ghash, s.nodes, k)} :: k in s.nodes ==> LengthOk(s.ghash, s.nodes, k))
    requires Linked(H, L, s.ghash, b) && !IsOrphan(s, b)
    requires Hash(H, b) in s.nodes
    ensures s.nodes[Hash(H, b)].block.prevHash == b.prevHash
    ensures s.nodes[Hash(H, b)].length == NewNodeFor(s, b).length
  {
    var h := Hash(H, b);
    assert NodeOk(H, L, s.ghash, s.nodes, h);
    assert LengthOk(s.ghash, s.nodes, h);
    var old_b := s.nodes[h].block;
    assert L.parentOf(Hash(H, old_b)) == old_b.prevHash;
  }

  /** The facts all three parts of `AttachWellFormed` share. */
  lemma AttachBlocks(H: Hashing, L: Links, s: State, b: Block)
    requires WellFormed(H, L, s) && (forall k {:trigger LengthOk(s.ghash, s.nodes, k)} :: k in s.nodes ==> LengthOk(s.ghash, s.nodes, k))
    requires Linked(H, L, s.ghash, b) && !IsOrphan(s, b)
    ensures var r := Attach(H, s, b);
      var h := Hash(H, b);
      && (forall k :: k in r.nodes && k != h ==> k in s.nodes && r.nodes[k].block == s.nodes[k].block)
      && r.nodes[h].block == b && r.nodes[h].children == []
      && (h in s.nodes ==> s.nodes[h].block.prevHash == b.prevHash)
  {
    AttachShape(H, L, s, b);
    if Hash(H, b) in s.nodes {
      OverwriteKeepsParent(H, L, s, b);
    }
  }

  lemma AttachNodesOk(H: Hashing, L: Links, s: State, b: Block)
    requires WellFormed(H, L, s) && (forall k {:trigger LengthOk(s.ghash, s.nodes, k)} :: k in s.nodes ==> LengthOk(s.ghash, s.nodes, k))
    requires Linked(H, L, s.ghash, b) && !IsOrphan(s, b)
    ensures var r := Attach(H, s, b);
      forall k {:trigger NodeOk(H, L, r.ghash, r.nodes, k)} :: k in r.nodes ==> NodeOk(H, L, r.ghash, r.nodes, k)
  {
    var r := Attach(H, s, b);
    var h := Hash(H, b);
    AttachShape(H, L, s, b);
    AttachBlocks(H, L, s, b);
    forall k | k in r.nodes
      ensures NodeOk(H, L, r.ghash, r.nodes, k)
    {
      if k != h {
        assert NodeOk(H, L, s.ghash, s.nodes, k);
      }
    }
  }

  lemma AttachChildrenOk(H: Hashing, L: Links, s: State, b: Block)
    requires WellFormed(H, L, s) && (forall k {:trigger LengthOk(s.ghash, s.nodes, k)} :: k in s.nodes ==> LengthOk(s.ghash, s.nodes, k))
    requires Linked(H, L, s.ghash, b) && !IsOrphan(s, b)
    ensures var r := Attach(H, s, b);
      && (forall k, c :: k in r.nodes && c in r.nodes[k].children ==>
            c in r.nodes && r.nodes[c].block.prevHash == k)
      && (forall c :: c in r.ghashChildren ==> c in r.nodes && r.nodes[c].block.prevHash == r.ghash)
  {
    var r := Attach(H, s, b);
    var h := Hash(H, b);
    var p := b.prevHash;
    AttachShape(H, L, s, b);
    AttachBlocks(H, L, s, b);
    forall k, c | k in r.nodes && c in r.nodes[k].children
      ensures c in r.nodes && r.nodes[c].block.prevHash == k
    {
      if k == p && c == h {
      } else {
        assert k in s.nodes && c in s.nodes[k].children;
        assert c in s.nodes && s.nodes[c].block.prevHash == k;
      }
    }
    forall c | c in r.ghashChildren
      ensures c in r.nodes && r.nodes[c].block.prevHash == r.ghash
    {
      if p == s.ghash && c == h {
      } else {
        assert c in s.ghashChildren;
      }
    }
  }

  lemma AttachWellFormed(H: Hashing, L: Links, s: State, b: Block)
    requires WellFormed(H, L, s) && (forall k {:trigger LengthOk(s.ghash, s.nodes, k)} :: k in s.nodes ==> LengthOk(s.ghash, s.nodes, k))
    requires Linked(H, L, s.ghash, b) && !IsOrphan(s, b)
    ensures WellFormed(H, L, Attach(H, s, b))
  {
    AttachShape(H, L, s, b);
    AttachNodesOk(H, L, s, b);
    AttachChildrenOk(H, L, s, b);
  }

  lemma AttachLengths(H: Hashing, L: Links, s: State, b: Block)
    requires WellFormed(H, L, s) && (forall k {:trigger LengthOk(s.ghash, s.nodes, k)} :: k in s.nodes ==> LengthOk(s.ghash, s.nodes, k))
    requires Linked(H, L, s.ghash, b) && !IsOrphan(s, b)
    ensures var r := Attach(H, s, b);
      forall k {:trigger LengthOk(r.ghash, r.nodes, k)} :: k in r.nodes ==> LengthOk(r.ghash, r.nodes, k)
  {
    var r := Attach(H, s, b);
    var h := Hash(H, b);
    var p := b.prevHash;
    AttachShape(H, L, s, b);
    if h in s.nodes {
      OverwriteKeepsParent(H, L, s, b);
    }
    assert forall k :: k in r.nodes && k != h ==>
      (k in s.nodes && r.nodes[k].block == s.nodes[k].block && r.nodes[k].length == s.nodes[k].length);
    forall k | k in r.nodes
      ensures LengthOk(r.ghash, r.nodes, k)
    {
      if k == h {
        if p != s.ghash {
          assert LengthOk(s.ghash, s.nodes, p);
        }
      } else {
        assert LengthOk(s.ghash, s.nodes, k);
        assert NodeOk(H, L, s.ghash, s.nodes, k);
        var q := r.nodes[k].block.prevHash;
        if q != s.ghash && q == h {
          assert q in s.nodes;
        }
      }
    }
  }

  /** Pruning a non-empty tip map at its maximum keeps a non-empty map with
      that same maximum. */
  lemma PruneAtMax(t: map<string, Node>)
    requires t != map[]
    requires forall k :: k in t ==> t[k].length >= 1
    ensures var m := MaxLength(t);
      var q := PruneTipsLessThan(t, m);
      && m >= 1 && q != map[] && MaxLength(q) == m
  {
    var m := MaxLength(t);
    var k0 :| k0 in t;
    assert m >= t[k0].length >= 1;
    var k1 :| k1 in t && t[k1].length == m;
    var q := PruneTipsLessThan(t, m);
    assert k1 in q;
    assert IsMaxLength(q, m);
    MaxLengthUnique(q, m, MaxLength(q));
  }

  /** The tip map `updateTips` builds before pruning. */
  function TipCandidates(H: Hashing, s: State, b: Block): map<string, Node>
  {
    (s.tips - {b.prevHash})[Hash(H, b) := NewNodeFor(s, b)]
  }

  lemma CandidatesPositive(H: Hashing, L: Links, s: State, b: Block)
    requires Inv(H, L, s)
    requires Linked(H, L, s.ghash, b) && !IsOrphan(s, b)
    ensures var t := TipCandidates(H, s, b);
      var m := MaxLength(t);
      && Hash(H, b) in t && t[Hash(H, b)].length <= m
      && m >= 1 && MaxLength(PruneTipsLessThan(t, m)) == m
      && PruneTipsLessThan(t, m) != map[]
  {
    var t := TipCandidates(H, s, b);
    var h := Hash(H, b);
    var p := b.prevHash;
    if p != s.ghash {
      assert LengthOk(s.ghash, s.nodes, p);
    }
    forall k | k in t
      ensures t[k].length >= 1
    {
      if k != h {
        assert LengthOk(s.ghash, s.nodes, k);
      }
    }
    assert h in t;
    PruneAtMax(t);
  }

  /** No node was longer than the new maximum, and the maximum does not
      shrink. */
  lemma OldNodesBelowNewMax(H: Hashing, L: Links, s: State, b: Block)
    requires Inv(H, L, s)
    requires Linked(H, L, s.ghash, b) && !IsOrphan(s, b)
    ensures forall k :: k in s.nodes ==> s.nodes[k].length <= MaxLength(TipCandidates(H, s, b))
    ensures s.nodes != map[] ==> MaxLength(s.tips) <= MaxLength(TipCandidates(H, s, b))
  {
    var t := TipCandidates(H, s, b);
    var h := Hash(H, b);
    var p := b.prevHash;
    var n := NewNodeFor(s, b);
    var m := MaxLength(t);
    var M := MaxLength(s.tips);
    assert h in t && t[h] == n;
    if s.nodes != map[] {
      assert s.tips != map[];
      var k0 :| k0 in s.tips;
      assert LengthOk(s.ghash, s.nodes, k0);
      assert M >= 1;
      var t0 :| t0 in s.tips && s.tips[t0].length == M;
      if t0 == p {
        assert NodeOk(H, L, s.ghash, s.nodes, p);
        assert n.length == M + 1;
      } else if t0 == h {
        OverwriteKeepsParent(H, L, s, b);
        assert n.length == M;
      } else {
        assert t0 in t && t[t0].length == M;
      }
      assert M <= m;
    }
  }

  /** The tips after `updateTips` are childless nodes. */
  lemma AttachTipsLeaves(H: Hashing, L: Links, s: State, b: Block)
    requires Inv(H, L, s)
    requires Linked(H, L, s.ghash, b) && !IsOrphan(s, b)
    ensures var r := Attach(H, s, b);
      forall t :: t in r.tips ==> t in r.nodes && r.tips[t] == r.nodes[t] && r.nodes[t].children == []
  {
    var r := Attach(H, s, b);
    var h := Hash(H, b);
    var p := b.prevHash;
    AttachShape(H, L, s, b);
    assert r.tips == PruneTipsLessThan(TipCandidates(H, s, b), MaxLength(TipCandidates(H, s, b)));
    forall k | k in r.tips
      ensures k in r.nodes && r.tips[k] == r.nodes[k] && r.nodes[k].children == []
    {
      if k != h {
        assert k in s.tips && k != p;
      }
    }
  }

  lemma AttachTips(H: Hashing, L: Links, s: State, b: Block)
    requires Inv(H, L, s)
    requires Linked(H, L, s.ghash, b) && !IsOrphan(s, b)
    ensures var r := Attach(H, s, b);
      && (forall t :: t in r.tips ==> r.tips[t].length == MaxLength(r.tips))
      && (forall k :: k in r.nodes ==> r.nodes[k].length <= MaxLength(r.tips))
      && r.tips != map[]
  {
    var r := Attach(H, s, b);
    var h := Hash(H, b);
    var t := TipCandidates(H, s, b);
    var m := MaxLength(t);
    AttachShape(H, L, s, b);
    assert r.tips == PruneTipsLessThan(t, m);
    CandidatesPositive(H, L, s, b);
    OldNodesBelowNewMax(H, L, s, b);
    forall k | k in r.nodes
      ensures r.nodes[k].length <= m
    {
      if k != h {
        assert k in s.nodes;
      }
    }
  }

  /** After adding `n` at `h` beside the old nodes, every node of the new
      greatest length survives the pruning of the tip candidates: `h` itself,
      or an old tip of that length other than the parent `p`. */
  lemma LongestKept(nodes: map<string, Node>, tips: map<string, Node>, r: map<string, Node>, p: string, h: string, n: Node)
    requires forall j :: j in tips ==> j in nodes && tips[j] == nodes[j]
    requires forall j :: j in nodes ==> nodes[j].length <= MaxLength(tips)
    requires forall j :: j in nodes && nodes[j].length == MaxLength(tips) ==> j in tips
    requires MaxLength(tips) <= MaxLength((tips - {p})[h := n])
    requires p in nodes ==> nodes[p].length < MaxLength((tips - {p})[h := n])
    requires r.Keys == nodes.Keys + {h} && r[h] == n
    requires forall j :: j in nodes && j != h ==> r[j].length == nodes[j].length
    ensures var t := (tips - {p})[h := n];
      forall k :: k in r && r[k].length == MaxLength(t) ==> k in PruneTipsLessThan(t, MaxLength(t))
  {
    var t := (tips - {p})[h := n];
    var m := MaxLength(t);
    forall k | k in r && r[k].length == m
      ensures k in PruneTipsLessThan(t, m)
    {
      if k != h {
        assert k in nodes && nodes[k].length == m;
        assert k in tips && k != p;
        assert k in t && t[k].length == m;
      }
    }
  }

  /** Every node of the greatest length stays a tip: the maximum either
      stays put, and the old longest nodes keep their place, or grows to the
      new node alone. */
  lemma AttachTipsComplete(H: Hashing, L: Links, s: State, b: Block)
    requires Inv(H, L, s)
    requires Linked(H, L, s.ghash, b) && !IsOrphan(s, b)
    ensures var r := Attach(H, s, b);
      forall k :: k in r.nodes && r.nodes[k].length == MaxLength(r.tips) ==> k in r.tips
  {
    var r := Attach(H, s, b);
    var h := Hash(H, b);
    var p := b.prevHash;
    var n := NewNodeFor(s, b);
    var t := TipCandidates(H, s, b);
    AttachShape(H, L, s, b);
    CandidatesPositive(H, L, s, b);
    OldNodesBelowNewMax(H, L, s, b);
    assert r.tips == PruneTipsLessThan(t, MaxLength(t));
    if p in s.nodes {
      assert NodeOk(H, L, s.ghash, s.nodes, p);
      assert p != s.ghash && r.nodes[p].length == s.nodes[p].length;
      assert s.nodes[p].length + 1 == t[h].length;
    }
    forall j | j in s.nodes && j != h
      ensures r.nodes[j].length == s.nodes[j].length
    {
      if j != p {
        assert r.nodes[j] == s.nodes[j];
      }
    }
    LongestKept(s.nodes, s.tips, r.nodes, p, h, n);
  }

  lemma AttachInv(H: Hashing, L: Links, s: State, b: Block)
    requires Inv(H, L, s)
    requires Linked(H, L, s.ghash, b) && !IsOrphan(s, b)
    ensures Inv(H, L, Attach(H, s, b))
  {
    AttachWellFormed(H, L, s, b);
    AttachLengths(H, L, s, b);
    AttachTipsLeaves(H, L, s, b);
    AttachTips(H, L, s, b);
    AttachTipsComplete(H, L, s, b);
  }

  lemma NewBlockChainInv(H: Hashing, L: Links, ghash: string)
    ensures Inv(H, L, NewBlockChain(ghash))
  {
  }

  /** Replacing the purgatory by linked blocks keeps the invariant. */
  lemma WithPurgatoryInv(H: Hashing, L: Links, s: State, p: seq<Block>)
    requires Inv(H, L, s) && AllLinked(H, L, s.ghash, p)
    ensures Inv(H, L, s.(purgatory := p))
  {
    var r := s.(purgatory := p);
    assert r.nodes == s.nodes && r.tips == s.tips && r.ghash == s.ghash;
  }

  lemma {:induction false} IntegrateInv(H: Hashing, L: Links, s: State, b: Block)
    requires Inv(H, L, s) && Linked(H, L, s.ghash, b)
    ensures Inv(H, L, Integrate(H, L, s, b))
    decreases L.rank(b.prevHash), 0, 0
  {
    if IsOrphan(s, b) {
      WithPurgatoryInv(H, L, s, s.purgatory + [b]);
    } else {
      AttachInv(H, L, s, b);
      ReplayInv(H, L, Attach(H, s, b), Hash(H, b));
    }
  }

  lemma {:induction false} ReplayInv(H: Hashing, L: Links, s: State, h: string)
    requires Inv(H, L, s)
    ensures Inv(H, L, Replay(H, L, s, h))
    decreases L.rank(h), 2, 0
  {
    var children := Select(s.purgatory, h, true);
    var rest := Select(s.purgatory, h, false);
    IntegrateAllInv(H, L, s, children, h);
    WithPurgatoryInv(H, L, IntegrateAll(H, L, s, children, h), rest);
  }

  lemma {:induction false} IntegrateAllInv(H: Hashing, L: Links, s: State, cs: seq<Block>, h: string)
    requires Inv(H, L, s)
    requires forall c :: c in cs ==> c.prevHash == h && Linked(H, L, s.ghash, c)
    ensures Inv(H, L, IntegrateAll(H, L, s, cs, h))
    decreases L.rank(h), 1, |cs|
  {
    if cs != [] {
      IntegrateInv(H, L, s, cs[0]);
      IntegrateAllInv(H, L, Integrate(H, L, s, cs[0]), cs[1..], h);
    }
  }
}
