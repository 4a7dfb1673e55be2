/** The block record of the ledger (block.go): a content record, its canonical
    string rendering and the hash of that rendering. */
module Blocks {

  /** Go's `uint32`, the type of the proof-of-work nonce. */
  type uint32 = x: int | 0 <= x < 0x1_0000_0000

  /** The two library primitives the rendering and the hash rely on, kept
      abstract: `fmt.Sprint` applied to a transaction map, and the lowercase
      hex SHA-256 digest of a string. Both are deterministic functions. */
  datatype Hashing = Hashing(render: map<string, string> -> string, sha256: string -> string)

  /** A block. `clientID` is carried as metadata and never rendered. */
  datatype Block = Block(
    clientID: string,
    prevHash: string,
    txn: map<string, string>,
    nodeID: int,
    nonce: uint32)

  /** `NewBlock`: stores its arguments verbatim, `clientID` stays empty. */
  function NewBlock(prevHash: string, txn: map<string, string>, nodeID: int, nonce: uint32): (b: Block)
    ensures b.prevHash == prevHash && b.txn == txn && b.nodeID == nodeID && b.nonce == nonce
    ensures b.clientID == ""
  {
    Block("", prevHash, txn, nodeID, nonce)
  }

  /** `NewNoOpBlock`: an empty transaction set and the zero nonce. */
  function NewNoOpBlock(prevHash: string, nodeID: int): (b: Block)
    ensures IsNoOp(b) && b.nonce == 0
    ensures b.prevHash == prevHash && b.nodeID == nodeID && b.clientID == ""
  {
    Block("", prevHash, map[], nodeID, 0)
  }

  /** `IsNoOp`: the transaction map has no entry. */
  predicate IsNoOp(b: Block) {
    |b.txn| == 0
  }

  lemma NoOpIffEmptyTxn(b: Block)
    ensures IsNoOp(b) <==> b.txn == map[]
  {
    if IsNoOp(b) {
      assert b.txn.Keys == {} by {
        assert |b.txn.Keys| == 0;
      }
      assert b.txn == map[];
    }
  }

  /** `Keys`: the keys of the transaction map, in whatever order the map
      iteration (here: an arbitrary choice) visits them. */
  method Keys(b: Block) returns (keys: seq<string>)
    ensures forall k :: k in keys <==> k in b.txn
    ensures forall i, j :: 0 <= i < j < |keys| ==> keys[i] != keys[j]
    ensures |keys| == |b.txn|
  {
    keys := [];
    var rest := b.txn.Keys;
    while rest != {}
      invariant rest <= b.txn.Keys
      invariant forall k :: k in keys <==> k in b.txn && k !in rest
      invariant forall i, j :: 0 <= i < j < |keys| ==> keys[i] != keys[j]
      invariant |keys| + |rest| == |b.txn|
      decreases rest
    {
      var k :| k in rest;
      keys := keys + [k];
      rest := rest - {k};
    }
  }

  /** The decimal digit character of `d`. */
  function DigitChar(d: nat): char
    requires d < 10
  {
    "0123456789"[d]
  }

  /** The value of a decimal digit character. */
  function DigitValue(c: char): nat
  {
    if '0' <= c <= '9' then (c as int) - ('0' as int) else 0
  }

  /** Decimal rendering of a natural number, most significant digit first,
      with no leading zeros. */
  function NatToDecimal(n: nat): string
    decreases n
  {
    if n < 10 then [DigitChar(n)] else NatToDecimal(n / 10) + [DigitChar(n % 10)]
  }

  /** The rendering is a nonempty string of digits with no leading zero
      (unless the number is 0). */
  lemma {:induction false} NatToDecimalDigits(n: nat)
    ensures var s := NatToDecimal(n);
      && |s| >= 1
      && (forall i :: 0 <= i < |s| ==> '0' <= s[i] <= '9')
      && (s[0] == '0' ==> n == 0)
    decreases n
  {
    if n >= 10 {
      NatToDecimalDigits(n / 10);
    }
  }

  /** The number a string of decimal digits denotes. */
  function DecimalValue(s: string): nat
  {
    if s == [] then 0 else 10 * DecimalValue(s[..|s| - 1]) + DigitValue(s[|s| - 1])
  }

  lemma {:induction false} DecimalRoundTrip(n: nat)
    ensures DecimalValue(NatToDecimal(n)) == n
    decreases n
  {
    var s := NatToDecimal(n);
    if n < 10 {
      assert s[..|s| - 1] == [];
    } else {
      DecimalRoundTrip(n / 10);
      assert s[..|s| - 1] == NatToDecimal(n / 10);
    }
  }

  /** `strconv.Itoa`: decimal rendering, with a leading '-' for negatives. */
  function Itoa(i: int): string
  {
    if i < 0 then "-" + NatToDecimal(-i) else NatToDecimal(i)
  }

  /** Distinct nonces render as distinct strings. */
  lemma ItoaInjectiveOnNat(m: nat, n: nat)
    requires Itoa(m) == Itoa(n)
    ensures m == n
  {
    DecimalRoundTrip(m);
    DecimalRoundTrip(n);
  }

  /** `String(withNonce)`: the parent hash, the rendered transactions and the
      node id, followed by the nonce when `withNonce` holds. */
  function String(h: Hashing, b: Block, withNonce: bool): string
  {
    var str := b.prevHash + h.render(b.txn) + Itoa(b.nodeID);
    if withNonce then str + Itoa(b.nonce) else str
  }

  /** `Hash`: the digest of the rendering with the nonce. */
  function Hash(h: Hashing, b: Block): string
  {
    h.sha256(String(h, b, true))
  }

  /** The rendering with the nonce extends the one without it by the nonce. */
  lemma StringWithNonce(h: Hashing, b: Block)
    ensures String(h, b, true) == String(h, b, false) + Itoa(b.nonce)
  {
  }

  /** The nonce-free rendering ignores the nonce and the client id. */
  lemma StringIgnoresNonceAndClient(h: Hashing, b: Block, nonce: uint32, clientID: string)
    ensures String(h, b.(nonce := nonce, clientID := clientID), false) == String(h, b, false)
  {
  }

  /** Blocks that agree on everything but the client id have the same hash. */
  lemma HashIgnoresClient(h: Hashing, b1: Block, b2: Block)
    requires b1.prevHash == b2.prevHash && b1.txn == b2.txn
    requires b1.nodeID == b2.nodeID && b1.nonce == b2.nonce
    ensures Hash(h, b1) == Hash(h, b2)
  {
  }

  /** Setting the nonce of a block gives it the digest of the nonce-free
      rendering followed by the decimal nonce: this is what the miner hashes. */
  lemma HashOfNonce(h: Hashing, b: Block, nonce: uint32)
    ensures Hash(h, b.(nonce := nonce)) == h.sha256(String(h, b, false) + Itoa(nonce))
  {
    StringWithNonce(h, b.(nonce := nonce));
    StringIgnoresNonceAndClient(h, b, nonce, b.clientID);
  }
}
