/** The ledger's records: transactions, blocks, the hash link between blocks
    and the pairwise validity rule a chain of blocks must satisfy.

    The block hash (SHA-256 over the sorted-key JSON form of a block) and the
    proof-of-work predicate (SHA-256 of the two proofs' printed forms, tested
    for the prefix "abc") are not modelled: every definition here takes them
    as function parameters, so every lemma holds for any deterministic hash
    and any deterministic proof predicate. */
module Blocks {

  /** One pending or sealed transfer. */
  datatype Transaction = Transaction(sender: string, recipient: string, amount: int)

  /** What a block's `previous_hash` field holds: the genesis block carries the
      integer sentinel 1, a sealed block the hex digest of its predecessor, and
      `NoHash` stands for Python's `None` (the omitted argument of new_block). */
  datatype HashRef = NoHash | Num(n: int) | Hex(digest: string)

  /** A block record. Proof values are reals: the genesis proof is the integer
      100, a mined proof is 0 or a float reached by adding pi repeatedly. */
  datatype Block = Block(
    index: int,
    timestamp: real,
    transactions: seq<Transaction>,
    proof: real,
    previousHash: HashRef)

  type Hasher = Block -> string
  type ProofCheck = (real, real) -> bool

  /** Python truthiness of a previous_hash argument: None, 0 and "" are false. */
  predicate Truthy(h: HashRef)
  {
    match h
    case NoHash => false
    case Num(n) => n != 0
    case Hex(d) => d != ""
  }

  /** Failures the ledger code raises rather than returns. */
  datatype Fault = IndexError

  datatype Result<T> = Ok(value: T) | Err(fault: Fault)

  datatype Option<T> = None | Some(value: T)

  /** The last block of a non-empty chain, as Python's `chain[-1]`. */
  function Last(c: seq<Block>): (b: Block)
    requires |c| > 0
  {
    c[|c| - 1]
  }

  /** `next` follows `prev`: it names prev's hash and its proof passes the
      proof-of-work predicate against prev's proof. */
  predicate Linked(hash: Hasher, validProof: ProofCheck, prev: Block, next: Block)
  {
    next.previousHash == Hex(hash(prev)) && validProof(prev.proof, next.proof)
  }

  /** Every adjacent pair of the chain is linked. The first block itself is
      never examined. */
  predicate ChainValid(hash: Hasher, validProof: ProofCheck, c: seq<Block>)
  {
    forall i :: 1 <= i < |c| ==> Linked(hash, validProof, c[i - 1], c[i])
  }

  /** Block indices are 1, 2, 3, ... by position. Validation does not check it,
      so a chain adopted from a peer need not have it. */
  predicate IndicesSequential(c: seq<Block>)
  {
    forall i :: 0 <= i < |c| ==> c[i].index == i + 1
  }

  /** A chain of one block is valid whatever that block holds. */
  lemma SingleBlockChainValid(hash: Hasher, validProof: ProofCheck, b: Block)
    ensures ChainValid(hash, validProof, [b])
  {
  }

  /** Appending a block that names the last block's hash and carries a proof
      accepted against the last block's proof keeps a valid chain valid. */
  lemma SealKeepsChainValid(hash: Hasher, validProof: ProofCheck, c: seq<Block>, b: Block)
    requires |c| > 0
    requires ChainValid(hash, validProof, c)
    requires b.previousHash == Hex(hash(Last(c)))
    requires validProof(Last(c).proof, b.proof)
    ensures ChainValid(hash, validProof, c + [b])
  {
  }

  /** Appending the block with index length + 1 keeps indices sequential. */
  lemma SealKeepsIndicesSequential(c: seq<Block>, b: Block)
    requires IndicesSequential(c)
    requires b.index == |c| + 1
    ensures IndicesSequential(c + [b])
  {
  }

  /** While indices follow positions, the last index plus one is the chain
      length plus one: the index the next sealed block receives. */
  lemma NextIndexIsLengthPlusOne(c: seq<Block>)
    requires |c| > 0
    requires IndicesSequential(c)
    ensures Last(c).index + 1 == |c| + 1
  {
  }

  /** Replacing any block that has a successor by a block with a different
      hash breaks the chain: the successor's previous_hash no longer matches.
      The last block is not protected this way. */
  lemma TamperBreaksChain(hash: Hasher, validProof: ProofCheck, c: seq<Block>, i: nat, b: Block)
    requires ChainValid(hash, validProof, c)
    requires i + 1 < |c|
    requires hash(b) != hash(c[i])
    ensures !ChainValid(hash, validProof, c[i := b])
  {
    var d := c[i := b];
    assert d[i + 1] == c[i + 1];
    assert c[i + 1].previousHash == Hex(hash(c[i]));
    assert !Linked(hash, validProof, d[i], d[i + 1]);
  }

  /** The first block is never examined on its own: swapping it for any block
      with the same hash and the same proof leaves validity as it was, whatever
      its index, timestamp, transactions or previous_hash. */
  lemma FirstBlockNotChecked(hash: Hasher, validProof: ProofCheck, c: seq<Block>, b: Block)
    requires |c| > 0
    requires hash(b) == hash(c[0]) && b.proof == c[0].proof
    ensures ChainValid(hash, validProof, c[0 := b]) <==> ChainValid(hash, validProof, c)
  {
    var d := c[0 := b];
    forall i | 1 <= i < |c|
      ensures Linked(hash, validProof, d[i - 1], d[i]) <==> Linked(hash, validProof, c[i - 1], c[i])
    {
      assert d[i] == c[i];
    }
  }

  /** Validation cannot see a change to the last block that keeps its link and
      its proof: its transactions, index and timestamp may differ freely. */
  lemma LastBlockTamperUndetected(hash: Hasher, validProof: ProofCheck, c: seq<Block>, b: Block)
    requires |c| > 0
    requires ChainValid(hash, validProof, c)
    requires b.previousHash == Last(c).previousHash && b.proof == Last(c).proof
    ensures ChainValid(hash, validProof, c[|c| - 1 := b])
  {
  }
}
