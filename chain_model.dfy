/** Reference semantics of the block tree (blockchain.go) as functions over a
    value `State`. The class in BlockChainImpl is proved to follow these
    functions step by step; ChainInv, ChainFrame, ChainTips and ChainQueries
    prove what they guarantee. */
module ChainModel {
  import opened Blocks

  /** A tree node: its chain length (1 for a child of genesis), its block and
      the hashes of its children, in the order they were attached. */
  datatype Node = Node(length: int, block: Block, children: seq<string>)

  /** The fields of the Go `BlockChain` struct. Tips are kept as node values:
      the Go map holds pointers shared with `nodes`, but only the length and
      the block of a tip are ever read, and those never change for a node. */
  datatype State = State(
    ghash: string,
    ghashChildren: seq<string>,
    nodes: map<string, Node>,
    tips: map<string, Node>,
    purgatory: seq<Block>)

  /** Ghost witnesses about the abstract hash of the blocks a caller submits:
      a ranking that strictly drops from a parent hash to a child's hash (so
      parent links are acyclic and run up to genesis), and the parent that a
      hash determines (the hash fixes the `PrevHash` it was computed from). */
  datatype Links = Links(rank: string -> nat, parentOf: string -> string)

  /** The assumption a submitted block must meet. */
  ghost predicate Linked(H: Hashing, L: Links, ghash: string, b: Block)
  {
    var h := Hash(H, b);
    L.rank(h) < L.rank(b.prevHash) <= L.rank(ghash) && L.parentOf(h) == b.prevHash
  }

  ghost predicate AllLinked(H: Hashing, L: Links, ghash: string, bs: seq<Block>)
  {
    forall b :: b in bs ==> Linked(H, L, ghash, b)
  }

  /** `NewBlockChain`. */
  function NewBlockChain(ghash: string): State
  {
    State(ghash, [], map[], map[], [])
  }

  /** `newNode`. */
  function NewNode(prevLength: int, b: Block): (n: Node)
  {
    Node(prevLength + 1, b, [])
  }

  /** The parent of `b` is neither genesis nor an integrated block. */
  predicate IsOrphan(s: State, b: Block)
  {
    b.prevHash !in s.nodes && b.prevHash != s.ghash
  }

  /** `addToPurgatory`. */
  function AddToPurgatory(s: State, b: Block): State
  {
    s.(purgatory := s.purgatory + [b])
  }

  /** `prevNodeChainLength`: -1 when the parent is not a node. */
  function PrevNodeChainLength(s: State, b: Block): int
  {
    if b.prevHash in s.nodes then s.nodes[b.prevHash].length else -1
  }

  /** The children list `GetChildren` reads for a known parent hash. */
  function ChildrenOf(s: State, parent: string): seq<string>
    requires parent == s.ghash || parent in s.nodes
  {
    if parent == s.ghash then s.ghashChildren else s.nodes[parent].children
  }

  /** `addAsChild`: append the block's hash to its parent's children. */
  function AddAsChild(H: Hashing, s: State, b: Block): State
    requires b.prevHash == s.ghash || b.prevHash in s.nodes
  {
    var parent := b.prevHash;
    if parent == s.ghash then
      s.(ghashChildren := s.ghashChildren + [Hash(H, b)])
    else
      var n := s.nodes[parent];
      s.(nodes := s.nodes[parent := n.(children := n.children + [Hash(H, b)])])
  }

  /** `m` is what `MaxChainLength`'s loop computes over `tips`: zero, or the
      largest tip length if that is positive. */
  ghost predicate IsMaxLength(tips: map<string, Node>, m: int)
  {
    && m >= 0
    && (forall k :: k in tips ==> tips[k].length <= m)
    && (m == 0 || exists k :: k in tips && tips[k].length == m)
  }

  /** The value of `MaxChainLength` for a tip map. */
  ghost function MaxLength(tips: map<string, Node>): (m: int)
    ensures IsMaxLength(tips, m)
    decreases |tips|
  {
    if tips == map[] then 0
    else
      var k :| k in tips;
      var rest := tips - {k};
      var r := MaxLength(rest);
      assert forall j :: j in tips && j != k ==> j in rest && rest[j] == tips[j];
      if tips[k].length > r then tips[k].length else r
  }

  lemma MaxLengthUnique(tips: map<string, Node>, a: int, b: int)
    requires IsMaxLength(tips, a) && IsMaxLength(tips, b)
    ensures a == b
  {
  }

  /** `pruneTipsLessThan`: keep the tips of the given length. (The Go loop
      re-keys each kept tip by its block's hash, which is already its key.) */
  function PruneTipsLessThan(tips: map<string, Node>, length: int): (r: map<string, Node>)
    ensures r.Keys <= tips.Keys
    ensures forall k :: k in r ==> r[k] == tips[k] && r[k].length == length
    ensures forall k :: k in tips && tips[k].length == length ==> k in r
  {
    map k | k in tips && tips[k].length == length :: tips[k]
  }

  /** `updateTips`: drop the parent, add the new node, keep the longest. */
  ghost function UpdateTips(H: Hashing, tips: map<string, Node>, n: Node): map<string, Node>
  {
    var t := (tips - {n.block.prevHash})[Hash(H, n.block) := n];
    PruneTipsLessThan(t, MaxLength(t))
  }

  /** Steps 2-5 of `IntegrateBlock` for a block whose parent is known: make
      the node, store it, record it as a child, update the tips. */
  ghost function Attach(H: Hashing, s: State, b: Block): State
    requires !IsOrphan(s, b)
  {
    var prevLength := if b.prevHash == s.ghash then 0 else PrevNodeChainLength(s, b);
    var n := NewNode(prevLength, b);
    var s1 := s.(nodes := s.nodes[Hash(H, b) := n]);
    var s2 := AddAsChild(H, s1, b);
    s2.(tips := UpdateTips(H, s2.tips, n))
  }

  /** The blocks of `bs`, in order, whose parent hash is `h` (`keep`) or is
      not `h` (`!keep`): the two lists `addFromPurgatoryBlocksWithPrevHash`
      builds. */
  function Select(bs: seq<Block>, h: string, keep: bool): (r: seq<Block>)
    ensures forall b :: b in r ==> b in bs && (b.prevHash == h) == keep
    ensures |r| <= |bs|
  {
    if bs == [] then []
    else
      var last := bs[|bs| - 1];
      Select(bs[..|bs| - 1], h, keep) + (if (last.prevHash == h) == keep then [last] else [])
  }

  /** `IntegrateBlock`. */
  ghost function Integrate(H: Hashing, L: Links, s: State, b: Block): (r: State)
    requires Linked(H, L, s.ghash, b) && AllLinked(H, L, s.ghash, s.purgatory)
    ensures r.ghash == s.ghash && AllLinked(H, L, r.ghash, r.purgatory)
    decreases L.rank(b.prevHash), 0, 0
  {
    if IsOrphan(s, b) then AddToPurgatory(s, b)
    else Replay(H, L, Attach(H, s, b), Hash(H, b))
  }

  /** `addFromPurgatoryBlocksWithPrevHash`: integrate the purgatory blocks
      whose parent is `h`, then set purgatory to the other blocks as they
      were before those integrations. */
  ghost function Replay(H: Hashing, L: Links, s: State, h: string): (r: State)
    requires AllLinked(H, L, s.ghash, s.purgatory)
    ensures r.ghash == s.ghash && AllLinked(H, L, r.ghash, r.purgatory)
    decreases L.rank(h), 2, 0
  {
    var children := Select(s.purgatory, h, true);
    var rest := Select(s.purgatory, h, false);
    var s' := IntegrateAll(H, L, s, children, h);
    s'.(purgatory := rest)
  }

  /** The loop over the selected children, one `IntegrateBlock` each. */
  ghost function IntegrateAll(H: Hashing, L: Links, s: State, cs: seq<Block>, h: string): (r: State)
    requires AllLinked(H, L, s.ghash, s.purgatory)
    requires forall c :: c in cs ==> c.prevHash == h && Linked(H, L, s.ghash, c)
    ensures r.ghash == s.ghash && AllLinked(H, L, r.ghash, r.purgatory)
    decreases L.rank(h), 1, |cs|
  {
    if cs == [] then s
    else IntegrateAll(H, L, Integrate(H, L, s, cs[0]), cs[1..], h)
  }

  /** Node `h` is consistent: keyed by its block's hash, its block `Linked`,
      its parent genesis or a node. */
  ghost predicate NodeOk(H: Hashing, L: Links, ghash: string, nodes: map<string, Node>, h: string)
    requires h in nodes
  {
    var b := nodes[h].block;
    && Hash(H, b) == h
    && Linked(H, L, ghash, b)
    && (b.prevHash == ghash || b.prevHash in nodes)
  }

  /** The structural facts every query relies on (and that termination of
      its walks rests on). */
  ghost predicate WellFormed(H: Hashing, L: Links, s: State)
  {
    && AllLinked(H, L, s.ghash, s.purgatory)
    && (forall h {:trigger NodeOk(H, L, s.ghash, s.nodes, h)} :: h in s.nodes ==> NodeOk(H, L, s.ghash, s.nodes, h))
    && (forall h, c :: h in s.nodes && c in s.nodes[h].children ==>
          c in s.nodes && s.nodes[c].block.prevHash == h)
    && (forall c :: c in s.ghashChildren ==> c in s.nodes && s.nodes[c].block.prevHash == s.ghash)
  }

  /** A node's length is one more than its parent's (1 below genesis). */
  ghost predicate LengthOk(ghash: string, nodes: map<string, Node>, h: string)
    requires h in nodes
  {
    var n := nodes[h];
    && n.length >= 1
    && (n.block.prevHash == ghash ==> n.length == 1)
    && (n.block.prevHash != ghash && n.block.prevHash in nodes ==>
          n.length == nodes[n.block.prevHash].length + 1)
  }

  /** The invariant `IntegrateBlock` keeps: well-formedness, lengths, and the
      tips being exactly the nodes of the greatest length, all childless. */
  ghost predicate Inv(H: Hashing, L: Links, s: State)
  {
    && WellFormed(H, L, s)
    && (forall h {:trigger LengthOk(s.ghash, s.nodes, h)} :: h in s.nodes ==> LengthOk(s.ghash, s.nodes, h))
    && (forall t :: t in s.tips ==> t in s.nodes && s.tips[t] == s.nodes[t] && s.nodes[t].children == [])
    && (forall t :: t in s.tips ==> s.tips[t].length == MaxLength(s.tips))
    && (forall h :: h in s.nodes ==> s.nodes[h].length <= MaxLength(s.tips))
    && (forall h :: h in s.nodes && s.nodes[h].length == MaxLength(s.tips) ==> h in s.tips)
    && (s.nodes != map[] ==> s.tips != map[])
  }

  /** `getHelper`: walk back along parent hashes from `h` and return the value
      of `key` in the first block that writes it, or "" at genesis. */
  function GetHelper(H: Hashing, ghost L: Links, s: State, h: string, key: string): string
    requires WellFormed(H, L, s)
    requires h == s.ghash || h in s.nodes
    decreases L.rank(s.ghash) - L.rank(h)
  {
    if h == s.ghash then ""
    else
      var node := s.nodes[h];
      assert NodeOk(H, L, s.ghash, s.nodes, h);
      if key in node.block.txn then node.block.txn[key]
      else GetHelper(H, L, s, node.block.prevHash, key)
  }

  /** `progenyCountHelper`. */
  function ProgenyCountHelper(H: Hashing, ghost L: Links, s: State, h: string, current: int): (r: int)
    requires WellFormed(H, L, s)
    requires h in s.nodes
    ensures current >= 0 ==> r >= 0
    decreases L.rank(h), 1, 0
  {
    var children := s.nodes[h].children;
    if |children| == 0 then current
    else
      ChildRanks(H, L, s, h);
      MaxOverChildren(H, L, s, children, h, current) + 1
  }

  /** The loop of `progenyCountHelper` over the children `cs` of `h`: the
      largest count, starting from 0. */
  function MaxOverChildren(H: Hashing, ghost L: Links, s: State, cs: seq<string>, ghost h: string, current: int): (r: int)
    requires WellFormed(H, L, s)
    requires forall c :: c in cs ==> c in s.nodes && L.rank(c) < L.rank(h)
    ensures r >= 0
    decreases L.rank(h), 0, |cs|
  {
    if cs == [] then 0
    else
      var m := MaxOverChildren(H, L, s, cs[..|cs| - 1], h, current);
      var count := ProgenyCountHelper(H, L, s, cs[|cs| - 1], current);
      if count > m then count else m
  }

  /** `progenyCount`. */
  function ProgenyCount(H: Hashing, ghost L: Links, s: State, h: string): int
    requires WellFormed(H, L, s)
    requires h in s.nodes
  {
    ProgenyCountHelper(H, L, s, h, 0)
  }

  /** Every child of a node ranks below it. */
  lemma ChildRanks(H: Hashing, L: Links, s: State, h: string)
    requires WellFormed(H, L, s) && h in s.nodes
    ensures forall c :: c in s.nodes[h].children ==> c in s.nodes && L.rank(c) < L.rank(h)
  {
    forall c | c in s.nodes[h].children
      ensures c in s.nodes && L.rank(c) < L.rank(h)
    {
      var b := s.nodes[c].block;
      assert NodeOk(H, L, s.ghash, s.nodes, c);
      assert Hash(H, b) == c && b.prevHash == h;
      assert Linked(H, L, s.ghash, b);
    }
  }

  /** `isInPurgatory`. */
  predicate InPurgatory(H: Hashing, s: State, h: string)
  {
    exists b :: b in s.purgatory && Hash(H, b) == h
  }

  /** `countKeyConflicts`: how many entries of `keys` the map writes. */
  function Conflicts(keys: seq<string>, txn: map<string, string>): nat
  {
    if keys == [] then 0
    else Conflicts(keys[..|keys| - 1], txn) + (if keys[|keys| - 1] in txn then 1 else 0)
  }

  /** `math.MaxInt32`, the initial conflict minimum of `ChainTip`. */
  const MaxInt32: int := 0x7fff_ffff

  /** What `ChainTip(keys)` may return: genesis when there are no tips;
      otherwise a tip with the fewest conflicts (whichever the map iteration
      reaches first); and the zero value "" in the corner case where every
      tip has at least `MaxInt32` conflicts. */
  ghost predicate IsChainTip(s: State, keys: seq<string>, r: string)
  {
    if s.tips == map[] then r == s.ghash
    else if exists t :: t in s.tips && Conflicts(keys, s.tips[t].block.txn) < MaxInt32 then
      && r in s.tips
      && forall t :: t in s.tips ==>
           Conflicts(keys, s.tips[r].block.txn) <= Conflicts(keys, s.tips[t].block.txn)
    else r == ""
  }
}
