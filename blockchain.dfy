/** The `Blockchain` ledger object of a node and the mining sequence run by
    its `/mine` endpoint.

    The ledger owns three pieces of mutable state: the chain of blocks, the
    pool of pending transactions, and the set of peer network locations. The
    hash and proof-of-work functions are fixed when the ledger is built. */
module BitCoin {
  import opened Blocks
  import opened Consensus

  const GenesisProof: real := 100.0
  const GenesisPreviousHash: HashRef := Num(1)

  class Blockchain {
    const hash: Hasher
    const validProof: ProofCheck

    var chain: seq<Block>
    var currentTransactions: seq<Transaction>
    var nodes: set<string>

    /** The chain is never empty once the genesis block exists. */
    ghost predicate Valid()
      reads this
    {
      |chain| > 0
    }

    /** A new ledger holding only the genesis block. */
    constructor (hash: Hasher, validProof: ProofCheck, now: real)
      ensures Valid()
      ensures this.hash == hash && this.validProof == validProof
      ensures chain == [Block(1, now, [], GenesisProof, GenesisPreviousHash)]
      ensures currentTransactions == [] && nodes == {}
      ensures ChainValid(hash, validProof, chain) && IndicesSequential(chain)
    {
      this.hash := hash;
      this.validProof := validProof;
      currentTransactions := [];
      chain := [];
      nodes := {};
      new;
      var _ := NewBlock(GenesisProof, GenesisPreviousHash, now);
    }

    /** The `last_block` property: the newest block. */
    function LastBlock(): (b: Block)
      reads this
      requires Valid()
      ensures b == chain[|chain| - 1]
      ensures IndicesSequential(chain) ==> b.index == |chain|
    {
      Last(chain)
    }

    /** Records the network location of a peer address; `netloc` is the URL
        parser's location extraction. */
    method RegisterNode(address: string, netloc: string -> string)
      modifies this
      ensures nodes == old(nodes) + {netloc(address)}
      ensures chain == old(chain) && currentTransactions == old(currentTransactions)
    {
      nodes := nodes + {netloc(address)};
    }

    /** Seals the pending pool into a new block appended to the chain. An
        omitted or falsy `previousHash` is replaced by the hash of the current
        last block, which must then exist. */
    method NewBlock(proof: real, previousHash: HashRef, now: real) returns (block: Block)
      requires |chain| > 0 || Truthy(previousHash)
      modifies this
      ensures Valid() && chain == old(chain) + [block] && block == LastBlock()
      ensures block.index == |old(chain)| + 1
      ensures block.timestamp == now && block.proof == proof
      ensures block.transactions == old(currentTransactions)
      ensures block.previousHash == if Truthy(previousHash) then previousHash else Hex(hash(Last(old(chain))))
      ensures currentTransactions == [] && nodes == old(nodes)
      ensures old(IndicesSequential(chain)) ==> IndicesSequential(chain)
      ensures (old(|chain| > 0 && ChainValid(hash, validProof, chain) && validProof(Last(chain).proof, proof))
               && !Truthy(previousHash)) ==> ChainValid(hash, validProof, chain)
    {
      var link := if Truthy(previousHash) then previousHash else Hex(hash(Last(chain)));
      block := Block(|chain| + 1, now, currentTransactions, proof, link);
      if |chain| > 0 && ChainValid(hash, validProof, chain) && validProof(Last(chain).proof, proof) && !Truthy(previousHash) {
        SealKeepsChainValid(hash, validProof, chain, block);
      }
      if IndicesSequential(chain) {
        SealKeepsIndicesSequential(chain, block);
      }
      currentTransactions := [];
      chain := chain + [block];
    }

    /** Adds a transaction to the end of the pending pool and returns the index
        one past the last block's. */
    method NewTransaction(sender: string, recipient: string, amount: int) returns (next: int)
      requires Valid()
      modifies this
      ensures Valid()
      ensures currentTransactions == old(currentTransactions) + [Transaction(sender, recipient, amount)]
      ensures chain == old(chain) && nodes == old(nodes)
      ensures next == LastBlock().index + 1
      ensures IndicesSequential(chain) ==> next == |chain| + 1
    {
      currentTransactions := currentTransactions + [Transaction(sender, recipient, amount)];
      next := LastBlock().index + 1;
      if IndicesSequential(chain) {
        NextIndexIsLengthPlusOne(chain);
      }
    }

    /** Walks the adjacent pairs of `c`, each block against its predecessor.
        An empty chain fails on reading its first block. */
    method ValidChain(c: seq<Block>) returns (r: Result<bool>)
      ensures r == if |c| == 0 then Err(IndexError) else Ok(ChainValid(hash, validProof, c))
    {
      if |c| == 0 {
        return Err(IndexError);
      }
      var lastBlock := c[0];
      var currentIndex := 1;
      while currentIndex < |c|
        invariant 1 <= currentIndex <= |c|
        invariant lastBlock == c[currentIndex - 1]
        invariant forall i :: 1 <= i < currentIndex ==> Linked(hash, validProof, c[i - 1], c[i])
      {
        var block := c[currentIndex];
        if block.previousHash != Hex(hash(lastBlock)) {
          return Ok(false);
        }
        if !validProof(lastBlock.proof, block.proof) {
          return Ok(false);
        }
        lastBlock := block;
        currentIndex := currentIndex + 1;
      }
      return Ok(true);
    }

    /** Scans the peers' replies for the longest valid chain that is longer
        than the local one and adopts it. Returns whether the chain was
        replaced; an empty chain reaching validation raises, leaving the
        ledger as it was. */
    method ResolveConflicts(replies: seq<Reply>) returns (r: Result<bool>)
      requires Valid()
      modifies this
      ensures Valid()
      ensures currentTransactions == old(currentTransactions) && nodes == old(nodes)
      ensures r.Err? <==> ScanRaises(hash, validProof, |old(chain)|, replies)
      ensures r == Ok(false) <==>
                !ScanRaises(hash, validProof, |old(chain)|, replies) &&
                forall j :: 0 <= j < |replies| ==> !Qualifies(hash, validProof, replies[j], |old(chain)|)
      ensures r == Ok(true) ==>
                exists k :: IsBest(hash, validProof, |old(chain)|, replies, k) && chain == replies[k].chain
      ensures r != Ok(true) ==> chain == old(chain)
    {
      ghost var local := |chain|;
      var maxLength := |chain|;
      var newChain: Option<seq<Block>> := None;
      ghost var best := 0;
      var i := 0;
      assert replies[..i] == [];
      while i < |replies|
        invariant 0 <= i <= |replies|
        invariant chain == old(chain) && currentTransactions == old(currentTransactions) && nodes == old(nodes)
        invariant !ScanRaises(hash, validProof, local, replies[..i])
        invariant Scanned(hash, validProof, local, replies[..i], maxLength, newChain.Some?, best)
        invariant newChain.Some? ==> newChain.value == replies[best].chain
      {
        var response := replies[i];
        ghost var seen := replies[..i];
        assert replies[..i + 1] == seen + [response];
        ScanRaisesExtend(hash, validProof, local, seen, maxLength, newChain.Some?, best, response);
        var adopt := false;
        if response.status == 200 && response.length > maxLength {
          var valid := ValidChain(response.chain);
          if valid.Err? {
            ScanRaisesOnPrefix(hash, validProof, local, replies, i + 1);
            return Err(IndexError);
          }
          adopt := valid.value;
        }
        if adopt {
          ScanAdopt(hash, validProof, local, seen, maxLength, newChain.Some?, best, response);
          maxLength := response.length;
          newChain := Some(response.chain);
          best := i;
        } else {
          ScanSkip(hash, validProof, local, seen, maxLength, newChain.Some?, best, response);
        }
        i := i + 1;
      }
      assert replies[..i] == replies;
      // A chosen chain is never empty, so testing it for truth is the same as
      // asking whether one was chosen.
      match newChain
      case Some(c) =>
        chain := c;
        return Ok(true);
      case None =>
        return Ok(false);
    }
  }

  /** The mining sequence: credits the miner with a reward of 1 from sender
      "0" and seals the pool with `proof`. The proof stands for the result of
      the proof-of-work search run on the last block's proof, which returns
      only a value that passes against it. */
  method Mine(ledger: Blockchain, nodeIdentifier: string, proof: real, now: real) returns (block: Block)
    requires ledger.Valid()
    requires ledger.validProof(ledger.LastBlock().proof, proof)
    modifies ledger
    ensures ledger.Valid()
    ensures ledger.chain == old(ledger.chain) + [block]
    ensures block.index == |old(ledger.chain)| + 1 && block.proof == proof && block.timestamp == now
    ensures block.transactions == old(ledger.currentTransactions) + [Transaction("0", nodeIdentifier, 1)]
    ensures block.previousHash == Hex(ledger.hash(Last(old(ledger.chain))))
    ensures ledger.currentTransactions == [] && ledger.nodes == old(ledger.nodes)
    ensures old(ChainValid(ledger.hash, ledger.validProof, ledger.chain)) ==> ChainValid(ledger.hash, ledger.validProof, ledger.chain)
  {
    var _ := ledger.NewTransaction("0", nodeIdentifier, 1);
    block := ledger.NewBlock(proof, NoHash, now);
  }
}
