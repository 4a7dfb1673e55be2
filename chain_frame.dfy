/** What one `IntegrateBlock` call does to the tree: which entries the purgatory
    cascade may touch, where the new block ends up, what happens to the blocks
    that were waiting for it, and the cascade's purgatory overwrite. */
module ChainFrame {
  import opened Blocks
  import opened ChainModel
  import opened ChainInv

  /** `r` differs from `s` only below `bound` in rank: no node is removed; no
      node of rank at least `bound` appears; those keep their length and block
      (their children may grow); and nodes ranked above `bound` are untouched. */
  ghost predicate Frame(L: Links, s: State, r: State, bound: nat)
  {
    && (forall k :: k in s.nodes ==> k in r.nodes)
    && (forall k :: k in r.nodes && L.rank(k) >= bound ==> k in s.nodes)
    && (forall k :: k in s.nodes && L.rank(k) >= bound ==>
          r.nodes[k].length == s.nodes[k].length && r.nodes[k].block == s.nodes[k].block)
    && (forall k :: k in s.nodes && L.rank(k) > bound ==> r.nodes[k] == s.nodes[k])
  }

  lemma FrameCompose(L: Links, s: State, a: State, r: State, big: nat, small: nat)
    requires Frame(L, s, a, big) && Frame(L, a, r, small) && small <= big
    ensures Frame(L, s, r, big)
  {
  }

  lemma {:induction false} IntegrateFrame(H: Hashing, L: Links, s: State, b: Block)
    requires Linked(H, L, s.ghash, b) && AllLinked(H, L, s.ghash, s.purgatory)
    ensures var r := Integrate(H, L, s, b);
      && Frame(L, s, r, L.rank(b.prevHash))
      && (b.prevHash != s.ghash ==> r.ghashChildren == s.ghashChildren)
    decreases L.rank(b.prevHash), 0, 0
  {
    if !IsOrphan(s, b) {
      var a := Attach(H, s, b);
      AttachShape(H, L, s, b);
      assert Frame(L, s, a, L.rank(b.prevHash));
      ReplayFrame(H, L, a, Hash(H, b));
      FrameCompose(L, s, a, Replay(H, L, a, Hash(H, b)), L.rank(b.prevHash), L.rank(Hash(H, b)));
    }
  }

  lemma {:induction false} ReplayFrame(H: Hashing, L: Links, s: State, h: string)
    requires AllLinked(H, L, s.ghash, s.purgatory)
    ensures var r := Replay(H, L, s, h);
      && Frame(L, s, r, L.rank(h))
      && (h != s.ghash ==> r.ghashChildren == s.ghashChildren)
    decreases L.rank(h), 2, 0
  {
    IntegrateAllFrame(H, L, s, Select(s.purgatory, h, true), h);
  }

  lemma {:induction false} IntegrateAllFrame(H: Hashing, L: Links, s: State, cs: seq<Block>, h: string)
    requires AllLinked(H, L, s.ghash, s.purgatory)
    requires forall c :: c in cs ==> c.prevHash == h && Linked(H, L, s.ghash, c)
    ensures var r := IntegrateAll(H, L, s, cs, h);
      && Frame(L, s, r, L.rank(h))
      && (h != s.ghash ==> r.ghashChildren == s.ghashChildren)
    decreases L.rank(h), 1, |cs|
  {
    if cs != [] {
      var s1 := Integrate(H, L, s, cs[0]);
      IntegrateFrame(H, L, s, cs[0]);
      IntegrateAllFrame(H, L, s1, cs[1..], h);
      FrameCompose(L, s, s1, IntegrateAll(H, L, s1, cs[1..], h), L.rank(h), L.rank(h));
    }
  }

  /** A block whose parent is unknown is appended to the purgatory and
      nothing else changes. */
  lemma IntegrateOrphan(H: Hashing, L: Links, s: State, b: Block)
    requires Linked(H, L, s.ghash, b) && AllLinked(H, L, s.ghash, s.purgatory)
    requires IsOrphan(s, b)
    ensures var r := Integrate(H, L, s, b);
      && r.nodes == s.nodes && r.tips == s.tips && r.ghashChildren == s.ghashChildren
      && r.purgatory == s.purgatory + [b]
      && InPurgatory(H, r, Hash(H, b))
  {
    assert Integrate(H, L, s, b).purgatory[|s.purgatory|] == b;
  }

  /** A block whose parent is genesis or a node becomes the node at its hash,
      one longer than its parent; its hash is appended to its parent's
      children; no node is lost; and the purgatory keeps, in order, exactly the
      blocks that were not waiting for it. */
  lemma IntegrateKnownParent(H: Hashing, L: Links, s: State, b: Block)
    requires Linked(H, L, s.ghash, b) && AllLinked(H, L, s.ghash, s.purgatory)
    requires !IsOrphan(s, b)
    ensures var r := Integrate(H, L, s, b);
      var h := Hash(H, b);
      var p := b.prevHash;
      && h in r.nodes && r.nodes[h].block == b
      && r.nodes[h].length == (if p == s.ghash then 1 else s.nodes[p].length + 1)
      && (p == r.ghash || p in r.nodes)
      && ChildrenOf(r, p) == ChildrenOf(s, p) + [h]
      && (forall k :: k in s.nodes ==> k in r.nodes)
      && r.purgatory == Select(s.purgatory, h, false)
  {
    var a := Attach(H, s, b);
    var h := Hash(H, b);
    AttachShape(H, L, s, b);
    ReplayFrame(H, L, a, h);
  }

  /** Once `h` is a node, every block of `cs` (all children of `h`) becomes
      a node too. */
  lemma {:induction false} IntegrateAllAdds(H: Hashing, L: Links, s: State, cs: seq<Block>, h: string)
    requires AllLinked(H, L, s.ghash, s.purgatory)
    requires forall c :: c in cs ==> c.prevHash == h && Linked(H, L, s.ghash, c)
    requires h in s.nodes
    ensures forall c :: c in cs ==> Hash(H, c) in IntegrateAll(H, L, s, cs, h).nodes
    decreases |cs|
  {
    if cs != [] {
      var s1 := Integrate(H, L, s, cs[0]);
      IntegrateKnownParent(H, L, s, cs[0]);
      IntegrateAllAdds(H, L, s1, cs[1..], h);
      IntegrateAllFrame(H, L, s1, cs[1..], h);
      forall c | c in cs
        ensures Hash(H, c) in IntegrateAll(H, L, s, cs, h).nodes
      {
        if c != cs[0] {
          assert c in cs[1..];
        }
      }
    }
  }

  /** Every block that was waiting in the purgatory for the new block is
      integrated by the same call. */
  lemma WaitingChildrenIntegrated(H: Hashing, L: Links, s: State, b: Block)
    requires Linked(H, L, s.ghash, b) && AllLinked(H, L, s.ghash, s.purgatory)
    requires !IsOrphan(s, b)
    ensures var r := Integrate(H, L, s, b);
      forall c :: c in s.purgatory && c.prevHash == Hash(H, b) ==> Hash(H, c) in r.nodes
  {
    var a := Attach(H, s, b);
    var h := Hash(H, b);
    var cs := Select(a.purgatory, h, true);
    AttachShape(H, L, s, b);
    SelectKeeps(s.purgatory, h, true);
    IntegrateAllAdds(H, L, a, cs, h);
  }

  /** `Select` keeps every block that meets its condition. */
  lemma {:induction false} SelectKeeps(bs: seq<Block>, h: string, keep: bool)
    ensures forall b :: b in bs && (b.prevHash == h) == keep ==> b in Select(bs, h, keep)
  {
    if bs != [] {
      var init := bs[..|bs| - 1];
      SelectKeeps(init, h, keep);
      assert bs == init + [bs[|bs| - 1]];
    }
  }

  /** When no block waits for `h`, nothing is selected and everything stays. */
  lemma {:induction false} SelectNoneWaiting(bs: seq<Block>, h: string)
    requires forall b :: b in bs ==> b.prevHash != h
    ensures Select(bs, h, true) == [] && Select(bs, h, false) == bs
  {
    if bs != [] {
      var init, last := bs[..|bs| - 1], bs[|bs| - 1];
      assert bs == init + [last];
      SelectNoneWaiting(init, h);
    }
  }

  /** With nobody waiting for it, integrating a block with a known parent is
      exactly steps 2-5 of `IntegrateBlock`. */
  lemma IntegrateWithoutWaiting(H: Hashing, L: Links, s: State, b: Block)
    requires Linked(H, L, s.ghash, b) && AllLinked(H, L, s.ghash, s.purgatory)
    requires !IsOrphan(s, b)
    requires forall c :: c in s.purgatory ==> c.prevHash != Hash(H, b)
    ensures Integrate(H, L, s, b) == Attach(H, s, b)
  {
    var h := Hash(H, b);
    var a := Attach(H, s, b);
    assert a.purgatory == s.purgatory;
    SelectNoneWaiting(a.purgatory, h);
    assert IntegrateAll(H, L, a, [], h) == a;
  }

  /** `Select` on a two-block purgatory. */
  lemma SelectPair(x: Block, y: Block, h: string, keep: bool)
    ensures Select([x, y], h, keep) ==
      (if (x.prevHash == h) == keep then [x] else []) + (if (y.prevHash == h) == keep then [y] else [])
  {
    assert [x, y][..1] == [x];
    assert [x][..0] == [];
  }

  /** The inner step of the cascade: replaying the child `c` integrates the
      grandchild `g`. */
  lemma CascadeInner(H: Hashing, L: Links, a: State, c: Block, g: Block)
    requires AllLinked(H, L, a.ghash, [c, g]) && a.purgatory == [c, g]
    requires Hash(H, c) in a.nodes && g.prevHash == Hash(H, c)
    ensures Hash(H, g) in Replay(H, L, a, Hash(H, c)).nodes
  {
    var hc := Hash(H, c);
    assert c in [c, g];
    assert c.prevHash != hc;
    SelectPair(c, g, hc, true);
    assert Select(a.purgatory, hc, true) == [g];
    IntegrateAllAdds(H, L, a, [g], hc);
  }

  /** The outer step of the cascade: replaying the new block `h` integrates
      its child `c`, whose own replay integrates `g`; then the purgatory is
      set to what the outer step selected before, which still holds `g`. */
  lemma CascadeOuter(H: Hashing, L: Links, a: State, h: string, c: Block, g: Block)
    requires AllLinked(H, L, a.ghash, [c, g]) && a.purgatory == [c, g]
    requires h in a.nodes && c.prevHash == h && g.prevHash == Hash(H, c)
    ensures var r := Replay(H, L, a, h);
      && Hash(H, c) in r.nodes && Hash(H, g) in r.nodes
      && r.purgatory == [g]
  {
    assert c in [c, g] && g in [c, g];
    assert g.prevHash != h;
    SelectPair(c, g, h, true);
    SelectPair(c, g, h, false);
    IntegrateAllAdds(H, L, a, [c], h);
    var a1 := Integrate(H, L, a, c);
    assert IntegrateAll(H, L, a, [c], h) == a1 by {
      assert [c][1..] == [];
    }
    var ac := Attach(H, a, c);
    assert a1 == Replay(H, L, ac, Hash(H, c));
    assert ac.purgatory == [c, g] && ac.ghash == a.ghash && Hash(H, c) in ac.nodes;
    CascadeInner(H, L, ac, c, g);
  }

  /** The cascade overwrite, as the code behaves: when the purgatory holds a
      child `c` of the new block followed by a grandchild `g`, both are
      integrated, yet `g` is left in the purgatory, because the outer call
      replaces the purgatory with the list it computed before the inner call
      removed `g`. */
  lemma CascadeKeepsGrandchild(H: Hashing, L: Links, s: State, b: Block, c: Block, g: Block)
    requires Linked(H, L, s.ghash, b) && !IsOrphan(s, b)
    requires s.purgatory == [c, g] && AllLinked(H, L, s.ghash, s.purgatory)
    requires c.prevHash == Hash(H, b) && g.prevHash == Hash(H, c)
    ensures var r := Integrate(H, L, s, b);
      && Hash(H, c) in r.nodes && Hash(H, g) in r.nodes
      && r.purgatory == [g]
  {
    var a := Attach(H, s, b);
    assert a.purgatory == [c, g] && a.ghash == s.ghash && Hash(H, b) in a.nodes;
    CascadeOuter(H, L, a, Hash(H, b), c, g);
  }
}
