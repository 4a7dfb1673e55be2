/** The proof-of-work miner (miner.go): the zero-prefix validity check and a
    sequential model of the nonce search. */
module Miner {
  import opened Blocks

  /** The first `k` characters of `h` are all '0'. */
  predicate ZeroPrefix(h: string, k: nat)
    requires k <= |h|
  {
    forall i :: 0 <= i < k ==> h[i] == '0'
  }

  /** `IsHashValid`: scan the first `numZeroes` characters and stop at the
      first one that is not '0'. (`hash[:numZeroes]` panics for a count
      outside 0..len(hash), hence the precondition.) */
  method IsHashValid(hash: string, numZeroes: int) returns (isValid: bool)
    requires 0 <= numZeroes <= |hash|
    ensures isValid <==> ZeroPrefix(hash, numZeroes)
  {
    isValid := true;
    var prefix := hash[..numZeroes];
    var i := 0;
    while i < |prefix|
      invariant 0 <= i <= |prefix|
      invariant isValid <==> forall j :: 0 <= j < i ==> prefix[j] == '0'
      invariant isValid
    {
      if prefix[i] != '0' {
        isValid := false;
        break;
      }
      i := i + 1;
    }
  }

  /** Fewer required zeros never turn a valid hash invalid. */
  lemma ValidityDownwardClosed(h: string, j: nat, k: nat)
    requires j <= k <= |h|
    requires ZeroPrefix(h, k)
    ensures ZeroPrefix(h, j)
  {
  }

  /** Whether nonce `nonce` appended to the nonce-free rendering `data`
      hashes to a valid digest. */
  ghost predicate NonceWorks(H: Hashing, data: string, nonce: uint32, numZeroes: nat)
  {
    var h := H.sha256(data + Itoa(nonce));
    numZeroes <= |h| && ZeroPrefix(h, numZeroes)
  }

  /** Poll `i` found no cancellation and nonce `NonceAt(i)` did not work. */
  ghost predicate Missed(H: Hashing, data: string, cancelRequested: nat -> bool, numZeroes: nat, i: nat)
  {
    !cancelRequested(i) && !NonceWorks(H, data, NonceAt(i), numZeroes)
  }

  /** A nonce that works for the block's nonce-free rendering makes the
      block's own hash valid once it is stored in the block. */
  lemma MinedHashValid(H: Hashing, b: Block, nonce: uint32, numZeroes: nat)
    requires NonceWorks(H, String(H, b, false), nonce, numZeroes)
    ensures numZeroes <= |Hash(H, b.(nonce := nonce))|
    ensures ZeroPrefix(Hash(H, b.(nonce := nonce)), numZeroes)
  {
    HashOfNonce(H, b, nonce);
  }

  /** How the search ended: the block was mined, the search was cancelled,
      or the fuel bound on the (otherwise unbounded) loop ran out. */
  datatype Outcome = Success | Cancelled | Exhausted

  /** The `*Block` the caller hands to the miner, written in place. */
  class BlockCell {
    var block: Block

    constructor (b: Block)
      ensures block == b
    {
      block := b;
    }
  }

  /** `nonce++` on a `uint32`: wraps from the largest value to 0. */
  function NextNonce(n: uint32): uint32
  {
    if n == 0xFFFF_FFFF then 0 else n + 1
  }

  /** The nonce after `i` increments of a `uint32` that starts at 0. */
  function NonceAt(i: nat): uint32
  {
    if i == 0 then 0 else NextNonce(NonceAt(i - 1))
  }

  /** The `i`-th nonce tried is `i` modulo 2^32. */
  lemma {:induction false} NonceAtIsMod(i: nat)
    ensures NonceAt(i) == i % 0x1_0000_0000
  {
    if i > 0 {
      NonceAtIsMod(i - 1);
      var q := (i - 1) / 0x1_0000_0000;
      assert i - 1 == q * 0x1_0000_0000 + NonceAt(i - 1);
      if NonceAt(i - 1) == 0xFFFF_FFFF {
        assert i == (q + 1) * 0x1_0000_0000;
      } else {
        assert i == q * 0x1_0000_0000 + (NonceAt(i - 1) + 1);
      }
    }
  }

  class Miner {
    var shouldCancel: bool
    const numZeroes: int
    const parentNodeID: int

    /** `NewMiner`. */
    constructor (numZeroes: int, parentNodeID: int)
      ensures this.numZeroes == numZeroes && this.parentNodeID == parentNodeID
      ensures !shouldCancel
    {
      this.numZeroes := numZeroes;
      this.parentNodeID := parentNodeID;
      shouldCancel := false;
    }

    /** `CancelBlockGeneration`: raise the flag the search polls. */
    method CancelBlockGeneration()
      modifies this
      ensures shouldCancel
    {
      shouldCancel := true;
    }

    /** One attempt of the search loop: hash the rendering followed by the
        decimal nonce and check the digest. */
    method TryNonce(H: Hashing, data: string, nonce: uint32) returns (valid: bool)
      requires 0 <= numZeroes
      requires forall s :: numZeroes <= |H.sha256(s)|
      ensures valid <==> NonceWorks(H, data, nonce, numZeroes)
    {
      var inputstr := data + Itoa(nonce);
      var hash := H.sha256(inputstr);
      valid := IsHashValid(hash, numZeroes);
    }

    /** `GenerateValidBlock`, one goroutine's view: `cancelRequested(i)`
        says whether another goroutine has called `CancelBlockGeneration`
        before the `i`-th poll of the flag. On success the block's nonce is
        the first nonce, counting from 0 with 32-bit wrap-around, that makes
        the block's hash valid; on cancellation the block is untouched. */
    method GenerateValidBlock(H: Hashing, b: BlockCell, cancelRequested: nat -> bool, fuel: nat)
      returns (outcome: Outcome, attempts: nat)
      requires 0 <= numZeroes
      requires forall s :: numZeroes <= |H.sha256(s)|
      modifies this, b
      ensures shouldCancel <==> outcome == Cancelled
      ensures forall i :: 0 <= i < attempts ==> Missed(H, String(H, old(b.block), false), cancelRequested, numZeroes, i)
      ensures outcome == Success ==>
        && !cancelRequested(attempts)
        && b.block == old(b.block).(nonce := NonceAt(attempts))
        && NonceWorks(H, String(H, old(b.block), false), NonceAt(attempts), numZeroes)
        && ZeroPrefix(Hash(H, b.block), numZeroes)
      ensures outcome == Cancelled ==> cancelRequested(attempts) && b.block == old(b.block)
      ensures outcome == Exhausted ==> attempts == fuel && b.block == old(b.block)
    {
      var nonce: uint32 := 0;
      var data := String(H, b.block, false);
      shouldCancel := false;
      outcome, attempts := Exhausted, 0;
      while attempts < fuel
        invariant attempts <= fuel
        invariant nonce == NonceAt(attempts)
        invariant !shouldCancel
        invariant b.block == old(b.block)
        invariant forall i :: 0 <= i < attempts ==> Missed(H, data, cancelRequested, numZeroes, i)
      {
        if cancelRequested(attempts) {
          CancelBlockGeneration();
        }
        if shouldCancel {
          outcome := Cancelled;
          break;
        }
        var valid := TryNonce(H, data, nonce);
        if valid {
          b.block := b.block.(nonce := nonce);
          MinedHashValid(H, old(b.block), nonce, numZeroes);
          outcome := Success;
          break;
        }
        assert Missed(H, data, cancelRequested, numZeroes, attempts);
        nonce := NextNonce(nonce);
        attempts := attempts + 1;
      }
    }
  }
}
