/** What the read-only queries of blockchain.go compute, stated against the
    tree: the ancestry walk of `getHelper`, the chain length `GetTxID`
    returns, the progeny count behind `IsValidated` and `IsOnLongestChain`,
    the conflict count and the tip choice of `ChainTip`. */
module ChainQueries {
  import opened Blocks
  import opened ChainModel
  import opened ChainTips

  /** The hashes from `h` back to (and excluding) genesis, nearest first. */
  ghost function Ancestry(H: Hashing, L: Links, s: State, h: string): (r: seq<string>)
    requires WellFormed(H, L, s)
    requires h == s.ghash || h in s.nodes
    ensures forall i :: 0 <= i < |r| ==> r[i] in s.nodes
    ensures h != s.ghash ==> |r| >= 1 && r[0] == h
    ensures forall i :: 0 <= i < |r| - 1 ==> s.nodes[r[i]].block.prevHash == r[i + 1]
    ensures |r| >= 1 ==> s.nodes[r[|r| - 1]].block.prevHash == s.ghash
    decreases L.rank(s.ghash) - L.rank(h)
  {
    if h == s.ghash then []
    else
      assert NodeOk(H, L, s.ghash, s.nodes, h);
      [h] + Ancestry(H, L, s, s.nodes[h].block.prevHash)
  }

  /** `r` is the value of `key` in the nearest block of `anc` that writes
      it, or "" when none does. */
  ghost predicate NearestValue(s: State, anc: seq<string>, key: string, r: string)
    requires forall i :: 0 <= i < |anc| ==> anc[i] in s.nodes
  {
    if exists i :: 0 <= i < |anc| && key in s.nodes[anc[i]].block.txn then
      exists i :: 0 <= i < |anc| && key in s.nodes[anc[i]].block.txn
        && r == s.nodes[anc[i]].block.txn[key]
        && forall j :: 0 <= j < i ==> key !in s.nodes[anc[j]].block.txn
    else r == ""
  }

  /** `getHelper` returns the value written by the nearest ancestor. */
  lemma {:induction false} GetHelperNearest(H: Hashing, L: Links, s: State, h: string, key: string)
    requires WellFormed(H, L, s)
    requires h == s.ghash || h in s.nodes
    ensures NearestValue(s, Ancestry(H, L, s, h), key, GetHelper(H, L, s, h, key))
    decreases L.rank(s.ghash) - L.rank(h)
  {
    if h != s.ghash {
      var anc := Ancestry(H, L, s, h);
      var p := s.nodes[h].block.prevHash;
      assert NodeOk(H, L, s.ghash, s.nodes, h);
      var rest := Ancestry(H, L, s, p);
      assert anc == [h] + rest;
      var r := GetHelper(H, L, s, h, key);
      if key in s.nodes[h].block.txn {
        assert anc[0] == h;
      } else {
        GetHelperNearest(H, L, s, p, key);
        assert r == GetHelper(H, L, s, p, key);
        if exists i :: 0 <= i < |anc| && key in s.nodes[anc[i]].block.txn {
          var i :| 0 <= i < |anc| && key in s.nodes[anc[i]].block.txn;
          assert i >= 1 && rest[i - 1] == anc[i];
          var i' :| 0 <= i' < |rest| && key in s.nodes[rest[i']].block.txn
            && r == s.nodes[rest[i']].block.txn[key]
            && forall j :: 0 <= j < i' ==> key !in s.nodes[rest[j]].block.txn;
          assert anc[i' + 1] == rest[i'];
          forall j | 0 <= j < i' + 1
            ensures key !in s.nodes[anc[j]].block.txn
          {
            if j > 0 {
              assert anc[j] == rest[j - 1];
            }
          }
        } else {
          forall i | 0 <= i < |rest|
            ensures key !in s.nodes[rest[i]].block.txn
          {
            assert anc[i + 1] == rest[i];
          }
        }
      }
    }
  }

  /** A node's length is the number of blocks from it back to genesis,
      which is what `GetTxID` reports. */
  lemma {:induction false} LengthIsAncestry(H: Hashing, L: Links, s: State, h: string)
    requires Inv(H, L, s)
    requires h in s.nodes
    ensures s.nodes[h].length == |Ancestry(H, L, s, h)|
    decreases L.rank(s.ghash) - L.rank(h)
  {
    var p := s.nodes[h].block.prevHash;
    assert NodeOk(H, L, s.ghash, s.nodes, h);
    assert LengthOk(s.ghash, s.nodes, h);
    if p != s.ghash {
      LengthIsAncestry(H, L, s, p);
    }
  }

  /** `p` is a downward path from `h`: each hash is a node listed among the
      children of the one before it. */
  ghost predicate DescPath(s: State, h: string, p: seq<string>)
    decreases |p|
  {
    p == [] ||
    (h in s.nodes && p[0] in s.nodes[h].children && p[0] in s.nodes && DescPath(s, p[0], p[1..]))
  }

  /** The loop over the children reaches at least each child's count. */
  lemma {:induction false} MaxOverChildrenGe(H: Hashing, L: Links, s: State, cs: seq<string>, h: string, current: int, c: string)
    requires WellFormed(H, L, s)
    requires forall x :: x in cs ==> x in s.nodes && L.rank(x) < L.rank(h)
    requires c in cs
    ensures ProgenyCountHelper(H, L, s, c, current) <= MaxOverChildren(H, L, s, cs, h, current)
    decreases |cs|
  {
    var init := cs[..|cs| - 1];
    if c != cs[|cs| - 1] {
      assert cs == init + [cs[|cs| - 1]];
      assert c in init;
      MaxOverChildrenGe(H, L, s, init, h, current, c);
    }
  }

  /** The loop over a nonempty list of children attains one child's count. */
  lemma {:induction false} MaxOverChildrenAttained(H: Hashing, L: Links, s: State, cs: seq<string>, h: string, current: int)
    returns (c: string)
    requires WellFormed(H, L, s)
    requires forall x :: x in cs ==> x in s.nodes && L.rank(x) < L.rank(h)
    requires cs != [] && current >= 0
    ensures c in cs && ProgenyCountHelper(H, L, s, c, current) == MaxOverChildren(H, L, s, cs, h, current)
    decreases |cs|
  {
    var init := cs[..|cs| - 1];
    var last := cs[|cs| - 1];
    var count := ProgenyCountHelper(H, L, s, last, current);
    if init == [] || count > MaxOverChildren(H, L, s, init, h, current) {
      c := last;
    } else {
      c := MaxOverChildrenAttained(H, L, s, init, h, current);
      assert c in init;
    }
  }

  /** No downward path from `h` is longer than its progeny count. */
  lemma {:induction false} ProgenyBound(H: Hashing, L: Links, s: State, h: string, p: seq<string>, current: int)
    requires WellFormed(H, L, s)
    requires h in s.nodes && current >= 0 && DescPath(s, h, p)
    ensures current + |p| <= ProgenyCountHelper(H, L, s, h, current)
    decreases L.rank(h)
  {
    var ch := s.nodes[h].children;
    if |ch| != 0 {
      ChildRanks(H, L, s, h);
      var c := if p == [] then ch[0] else p[0];
      var q := if p == [] then [] else p[1..];
      ProgenyBound(H, L, s, c, q, current);
      MaxOverChildrenGe(H, L, s, ch, h, current, c);
    }
  }

  /** Some downward path from `h` is as long as its progeny count. */
  lemma {:induction false} ProgenyWitness(H: Hashing, L: Links, s: State, h: string, current: int)
    returns (p: seq<string>)
    requires WellFormed(H, L, s)
    requires h in s.nodes && current >= 0
    ensures DescPath(s, h, p) && current + |p| == ProgenyCountHelper(H, L, s, h, current)
    decreases L.rank(h)
  {
    var ch := s.nodes[h].children;
    if |ch| == 0 {
      p := [];
    } else {
      ChildRanks(H, L, s, h);
      var c := MaxOverChildrenAttained(H, L, s, ch, h, current);
      var q := ProgenyWitness(H, L, s, c, current);
      p := [c] + q;
      assert p[1..] == q;
    }
  }

  /** `progenyCount` is the length of the longest downward path. */
  lemma ProgenyIsLongestPath(H: Hashing, L: Links, s: State, h: string)
    requires WellFormed(H, L, s) && h in s.nodes
    ensures forall p :: DescPath(s, h, p) ==> |p| <= ProgenyCount(H, L, s, h)
    ensures exists p :: DescPath(s, h, p) && |p| == ProgenyCount(H, L, s, h)
  {
    forall p | DescPath(s, h, p)
      ensures |p| <= ProgenyCount(H, L, s, h)
    {
      ProgenyBound(H, L, s, h, p, 0);
    }
    var w := ProgenyWitness(H, L, s, h, 0);
  }

  /** Lengths grow by one along a downward path. */
  lemma {:induction false} PathEndLength(H: Hashing, L: Links, s: State, h: string, p: seq<string>)
    requires Inv(H, L, s)
    requires h in s.nodes && DescPath(s, h, p) && p != []
    ensures p[|p| - 1] in s.nodes && s.nodes[p[|p| - 1]].length == s.nodes[h].length + |p|
    decreases |p|
  {
    GenesisNotNode(H, L, s);
    var c := p[0];
    assert s.nodes[c].block.prevHash == h;
    assert LengthOk(s.ghash, s.nodes, c);
    if |p| > 1 {
      PathEndLength(H, L, s, c, p[1..]);
      assert p[1..][|p| - 2] == p[|p| - 1];
    }
  }

  /** `IsValidated(h, n)` for a node: some downward path from `h` has at
      least `n` blocks. */
  lemma ValidatedIff(H: Hashing, L: Links, s: State, h: string, n: int)
    requires WellFormed(H, L, s) && h in s.nodes
    ensures ProgenyCount(H, L, s, h) >= n <==> exists p :: DescPath(s, h, p) && |p| >= n
  {
    ProgenyIsLongestPath(H, L, s, h);
  }

  /** `IsOnLongestChain(h)` for a node: some downward path from `h` reaches
      the greatest chain length. */
  lemma LongestChainIff(H: Hashing, L: Links, s: State, h: string)
    requires Inv(H, L, s) && h in s.nodes
    ensures s.nodes[h].length + ProgenyCount(H, L, s, h) == MaxLength(s.tips) <==>
      exists p :: DescPath(s, h, p) && s.nodes[h].length + |p| == MaxLength(s.tips)
  {
    var w := ProgenyWitness(H, L, s, h, 0);
    assert s.nodes[h].length + |w| <= MaxLength(s.tips) by {
      if w != [] {
        PathEndLength(H, L, s, h, w);
      }
    }
    if exists p :: DescPath(s, h, p) && s.nodes[h].length + |p| == MaxLength(s.tips) {
      var p :| DescPath(s, h, p) && s.nodes[h].length + |p| == MaxLength(s.tips);
      ProgenyBound(H, L, s, h, p, 0);
    }
  }

  /** The number of keys the transaction map writes, bounded by the number of
      keys; zero exactly when none is written, all exactly when all are. */
  lemma {:induction false} ConflictsBounds(keys: seq<string>, txn: map<string, string>)
    ensures Conflicts(keys, txn) <= |keys|
    ensures Conflicts(keys, txn) == 0 <==> forall i :: 0 <= i < |keys| ==> keys[i] !in txn
    ensures Conflicts(keys, txn) == |keys| <==> forall i :: 0 <= i < |keys| ==> keys[i] in txn
  {
    if keys != [] {
      var init := keys[..|keys| - 1];
      ConflictsBounds(init, txn);
      assert forall i :: 0 <= i < |init| ==> init[i] == keys[i];
    }
  }

  /** With fewer than `MaxInt32` current keys (in particular for `Get`'s nil
      keys) a nonempty tree's chain tip is a tip, so it ends a longest
      chain; an empty tree's tip is genesis. */
  lemma ChainTipIsLongest(H: Hashing, L: Links, s: State, keys: seq<string>, r: string)
    requires Inv(H, L, s) && IsChainTip(s, keys, r) && |keys| < MaxInt32
    ensures s.tips == map[] ==> r == s.ghash
    ensures s.tips != map[] ==> r in s.tips && r in s.nodes && s.nodes[r].length == MaxLength(s.tips)
  {
    if s.tips != map[] {
      var t :| t in s.tips;
      ConflictsBounds(keys, s.tips[t].block.txn);
    }
  }

  /** When one tip has strictly fewer conflicts than every other, that tip
      is the only possible chain tip. */
  lemma ChainTipUnique(s: State, keys: seq<string>, t: string, r: string)
    requires t in s.tips && Conflicts(keys, s.tips[t].block.txn) < MaxInt32
    requires forall u :: u in s.tips && u != t ==>
      Conflicts(keys, s.tips[t].block.txn) < Conflicts(keys, s.tips[u].block.txn)
    requires IsChainTip(s, keys, r)
    ensures r == t
  {
    assert r in s.tips;
  }
}
