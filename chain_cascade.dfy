/** The transitive reach of the purgatory replay: a block parked in the
    purgatory whose ancestors, back to the new block, are all parked too is
    integrated by the same `IntegrateBlock` call, however deep the chain. */
module ChainCascade {
  import opened Blocks
  import opened ChainModel
  import opened ChainInv
  import opened ChainFrame

  /** `chain` is a line of blocks of `bs`: the first waits for `h`, each later
      one for the block before it. */
  ghost predicate PurgatoryChain(H: Hashing, bs: seq<Block>, h: string, chain: seq<Block>)
  {
    && chain != []
    && (forall k :: 0 <= k < |chain| ==> chain[k] in bs)
    && chain[0].prevHash == h
    && (forall k :: 0 < k < |chain| ==> chain[k].prevHash == Hash(H, chain[k - 1]))
  }

  /** The hashes along a chain of linked blocks rank below the hash it hangs
      from. */
  lemma {:induction false} ChainBelow(H: Hashing, L: Links, bs: seq<Block>, h: string, chain: seq<Block>, ghash: string)
    requires PurgatoryChain(H, bs, h, chain) && AllLinked(H, L, ghash, bs)
    ensures forall k :: 0 <= k < |chain| ==> L.rank(Hash(H, chain[k])) < L.rank(h)
    decreases |chain|
  {
    if |chain| > 1 {
      var init := chain[..|chain| - 1];
      ChainBelow(H, L, bs, h, init, ghash);
      var last := chain[|chain| - 1];
      assert last in bs && Linked(H, L, ghash, last);
      assert last.prevHash == Hash(H, init[|init| - 1]);
      forall k | 0 <= k < |chain|
        ensures L.rank(Hash(H, chain[k])) < L.rank(h)
      {
        if k < |chain| - 1 {
          assert chain[k] == init[k];
        }
      }
    } else {
      assert chain[0] in bs && Linked(H, L, ghash, chain[0]);
    }
  }

  /** Integrating a block whose known parent lets it become a node also
      integrates every block of a purgatory chain hanging from it. */
  lemma {:induction false} ChainIntegrated(H: Hashing, L: Links, s: State, b: Block, chain: seq<Block>)
    requires Linked(H, L, s.ghash, b) && AllLinked(H, L, s.ghash, s.purgatory)
    requires !IsOrphan(s, b)
    requires PurgatoryChain(H, s.purgatory, Hash(H, b), chain)
    ensures forall k :: 0 <= k < |chain| ==> Hash(H, chain[k]) in Integrate(H, L, s, b).nodes
    decreases |chain|, 1, 0
  {
    var a := Attach(H, s, b);
    var h := Hash(H, b);
    AttachShape(H, L, s, b);
    var cs := Select(a.purgatory, h, true);
    SelectKeeps(a.purgatory, h, true);
    assert chain[0] in cs;
    IntegrateAllChain(H, L, a, cs, h, chain);
  }

  /** The loop over the waiting children, for a chain whose first block is
      still among the children to be integrated. */
  lemma {:induction false} IntegrateAllChain(H: Hashing, L: Links, a: State, cs: seq<Block>, h: string, chain: seq<Block>)
    requires AllLinked(H, L, a.ghash, a.purgatory)
    requires forall c :: c in cs ==> c.prevHash == h && Linked(H, L, a.ghash, c)
    requires h in a.nodes
    requires PurgatoryChain(H, a.purgatory, h, chain) && chain[0] in cs
    ensures forall k :: 0 <= k < |chain| ==> Hash(H, chain[k]) in IntegrateAll(H, L, a, cs, h).nodes
    decreases |chain|, 0, |cs|
  {
    var c := cs[0];
    var a1 := Integrate(H, L, a, c);
    IntegrateKnownParent(H, L, a, c);
    IntegrateAllFrame(H, L, a1, cs[1..], h);
    assert IntegrateAll(H, L, a, cs, h) == IntegrateAll(H, L, a1, cs[1..], h);
    if Hash(H, c) == Hash(H, chain[0]) {
      if |chain| > 1 {
        var rest := chain[1..];
        assert forall k :: 0 < k < |rest| ==> rest[k] == chain[k + 1];
        ChainIntegrated(H, L, a, c, rest);
        forall k | 0 <= k < |chain|
          ensures Hash(H, chain[k]) in a1.nodes
        {
          if k > 0 {
            assert chain[k] == rest[k - 1];
          }
        }
      }
    } else {
      assert chain[0] in cs[1..];
      ChainBelow(H, L, a.purgatory, h, chain, a.ghash);
      forall k | 0 <= k < |chain|
        ensures chain[k].prevHash != Hash(H, c)
      {
        assert Linked(H, L, a.ghash, c);
        if k > 0 {
          var d := chain[k - 1];
          assert d in a.purgatory && Linked(H, L, a.ghash, d);
          if k > 1 {
            assert d.prevHash == Hash(H, chain[k - 2]);
          }
        }
      }
      SelectKeeps(a.purgatory, Hash(H, c), false);
      assert PurgatoryChain(H, a1.purgatory, h, chain);
      IntegrateAllChain(H, L, a1, cs[1..], h, chain);
    }
  }

  /** Every block that waits, through a chain of parked blocks, for a block
      with a known parent is among the nodes after that block's
      `IntegrateBlock`. */
  lemma PendingDescendantsIntegrated(H: Hashing, L: Links, s: State, b: Block)
    requires Linked(H, L, s.ghash, b) && AllLinked(H, L, s.ghash, s.purgatory)
    requires !IsOrphan(s, b)
    ensures forall chain :: PurgatoryChain(H, s.purgatory, Hash(H, b), chain) ==>
      forall k :: 0 <= k < |chain| ==> Hash(H, chain[k]) in Integrate(H, L, s, b).nodes
  {
    forall chain | PurgatoryChain(H, s.purgatory, Hash(H, b), chain)
      ensures forall k :: 0 <= k < |chain| ==> Hash(H, chain[k]) in Integrate(H, L, s, b).nodes
    {
      ChainIntegrated(H, L, s, b, chain);
    }
  }
}
