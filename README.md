# Ledger engine of a minimal proof-of-work blockchain node

This project models the `Blockchain` class of `bitCoin/bitCoin.py` and the
body of its `/mine` handler in Dafny, and proves properties of the model.
Each node keeps three pieces of state:

- a chain of blocks, seeded with a genesis block;
- a pool of pending transactions;
- a set of peer network locations.

Transactions enter the pool. Mining credits the miner with a reward and then
seals the pool into a new block. That block links to its predecessor by hash
and carries a proof accepted against the predecessor's proof. Consensus
adopts the longest valid chain that peers report, if it is longer than the
local one.

Files and modules:

- `blocks.dfy`, module `Blocks`: transactions, blocks, the `previous_hash`
  field (`HashRef`), Python truthiness of that field, and the pairwise
  validity predicate `ChainValid` with its lemmas.
- `consensus.dfy`, module `Consensus`: peer replies and the
  longest-valid-chain rule, stated declaratively. `IsBest` says which reply
  is adopted and `ScanRaises` says when the scan raises. The step lemmas used
  by the scan loop are here too.
- `blockchain.dfy`, module `BitCoin`: the class `Blockchain` and the mining
  sequence `Mine`. The class has fields `chain`, `currentTransactions` and
  `nodes`, and methods that update them in place. `LastBlock` is the
  `last_block` property.

The block hash and the proof-of-work predicate are not modelled. They are
function-valued constants, `hash: Block -> string` and
`validProof: (real, real) -> bool`, fixed when a `Blockchain` is built. Every
proof therefore holds for any deterministic hash and proof predicate. Other
parameters:

- the clock is the `now` parameter;
- the node identifier is the `nodeIdentifier` parameter of `Mine`;
- URL location extraction is the `netloc` parameter of `RegisterNode`;
- the peers' `/chain` answers are the `replies` parameter of
  `ResolveConflicts`, in the order the peer set is iterated.

Behaviour of the code worth knowing, which the model follows:

- `new_transaction` returns the last block's index plus one, not the chain
  length plus one. The two agree whenever the last block's index equals the
  chain length, in particular while indices follow positions
  (`IndicesSequential`). Validation never checks indices, so an adopted
  peer chain need not have that property.
- A peer reply with an empty chain is not skipped. In the code,
  `valid_chain` reads `chain[0]` and raises `IndexError` on an empty chain.
  That happens to a status-200 reply with an empty chain once its reported
  length beats the running maximum, and then `resolve_conflicts` raises.
  The model returns `Err(IndexError)` and leaves the ledger unchanged, as the
  exception does.
- Validation detects a change to a block only when the block has a
  successor and the change alters its hash (`Blocks.TamperBreaksChain`). Nothing links to the last block, so changing
  its transactions goes undetected (`Blocks.LastBlockTamperUndetected`).
- Consensus compares the length a peer reports, not the length of the chain
  it sends.

## Model

| member | source | states |
|---|---|---|
| `BitCoin.Blockchain.constructor` | bitCoin/bitCoin.py:11-16 | the chain is exactly one genesis block (index 1, proof 100, previous hash the sentinel 1, no transactions); the pool and the peer set are empty; that chain is valid and indexed by position |
| `BitCoin.Blockchain.LastBlock` | bitCoin/bitCoin.py:132-134 | the result is the chain's last element, whose index is the chain length while indices follow positions; defined only on a non-empty chain |
| `BitCoin.Blockchain.RegisterNode` | bitCoin/bitCoin.py:18-25 | the peer set gains the address's network location; the chain and the pool are unchanged |
| `BitCoin.Blockchain.ValidChain` | bitCoin/bitCoin.py:27-48 | the walk over adjacent pairs returns true exactly when every block after the first names its predecessor's hash and has a proof accepted against the predecessor's proof (`ChainValid`); an empty chain raises `IndexError` |
| `BitCoin.Blockchain.ResolveConflicts` | bitCoin/bitCoin.py:50-75 | raises exactly when a success reply with an empty chain beats the local length and every earlier qualifying reply; otherwise returns false exactly when no reply has status 200, a reported length above the local length and a valid chain; on true the new chain is the qualifying reply with the greatest reported length, the first one at that length; otherwise the chain is unchanged; the pool and the peer set are never changed |
| `BitCoin.Blockchain.NewBlock` | bitCoin/bitCoin.py:77-101 | exactly one block is appended and returned as the new last block: index old length + 1, the given proof and timestamp, transactions exactly the old pool, previous hash the argument if truthy and otherwise the hash of the old last block; the pool is emptied; a valid chain stays valid when the default link is used with an accepted proof; indexing by position is kept |
| `BitCoin.Blockchain.NewTransaction` | bitCoin/bitCoin.py:103-118 | the pool gains exactly {sender, recipient, amount} at its end; the chain and peers are unchanged; the result is the last block's index + 1, which is the chain length + 1 while indices follow positions |
| `BitCoin.Mine` | bitCoin/bitCoin.py:175-191 | one block is appended whose transactions are the prior pool followed by the reward {"0", node identifier, 1}, whose previous hash is the hash of the old last block and whose proof is the given one; the pool ends empty; a valid chain stays valid |
| `Blocks.SingleBlockChainValid` | bitCoin/bitCoin.py:33-35 | a chain of a single block is valid whatever that block holds |
| `Blocks.SealKeepsChainValid` | bitCoin/bitCoin.py:39-44 | appending a block that names the last block's hash and has a proof accepted against the last proof keeps a valid chain valid |
| `Blocks.SealKeepsIndicesSequential` | bitCoin/bitCoin.py:84-86 | appending the block with index length + 1 keeps indices equal to position + 1 |
| `Blocks.NextIndexIsLengthPlusOne` | bitCoin/bitCoin.py:117-118 | while indices follow positions, the last index + 1 equals the chain length + 1 |
| `Blocks.TamperBreaksChain` | bitCoin/bitCoin.py:39-41 | replacing any block that has a successor by a block with a different hash makes a valid chain invalid |
| `Blocks.FirstBlockNotChecked` | bitCoin/bitCoin.py:33-46 | the first block is only read for its hash and its proof: any block with the same hash and proof in its place leaves validity unchanged |
| `Blocks.LastBlockTamperUndetected` | bitCoin/bitCoin.py:35-46 | changing the last block while keeping its previous hash and its proof keeps a valid chain valid |
| `Consensus.BestIsUnique` | bitCoin/bitCoin.py:68-70 | at most one reply is the adopted one |
| `Consensus.BestExists` | bitCoin/bitCoin.py:62-70 | whenever some reply qualifies, an adopted reply exists |
| `Consensus.ScanSkip` | bitCoin/bitCoin.py:64-68 | a reply that does not beat the running maximum leaves the scan's state (maximum, chosen reply) as it was |
| `Consensus.ScanAdopt` | bitCoin/bitCoin.py:68-70 | a reply that beats the running maximum becomes the chosen reply and its length the new maximum |
| `Consensus.RaisesAtPrefix` | bitCoin/bitCoin.py:62-68 | whether the scan raises on a reply depends only on the replies up to that one |
| `Consensus.ScanRaisesExtend` | bitCoin/bitCoin.py:62-68 | the scan raises on one more reply exactly when it raised before, or when the new reply reaches validation with an empty chain |
| `Consensus.ScanRaisesOnPrefix` | bitCoin/bitCoin.py:62-68 | a scan that raises on a prefix of the replies raises on all of them |

## Left out

- SHA-256 and `json.dumps(sort_keys=True)` in `hash`: these are library calls. The hash is any function from blocks to strings. `Blocks.TamperBreaksChain` therefore requires that the altered block hashes differently from the original; collision resistance of SHA-256 is not modelled.
- SHA-256 and the "abc" prefix test in `valid_proof`: these are library calls. The predicate is any function of two proofs.
- `proof_of_work`: an unbounded floating-point search that steps by pi and need not terminate. `Mine` takes its result as a parameter and requires that it passes `valid_proof` against the last proof, which is what the search returns.
- Integer versus float proofs: proofs are modelled as reals. Python prints 100 and 100.0 differently. That matters inside `valid_proof`, which formats both proofs, and inside `hash`, whose `json.dumps` writes `"proof": 100` and `"proof": 100.0` differently, so the model's hash cannot tell apart blocks that Python hashes differently.
- `NewBlock` requires a non-empty chain or a truthy `previousHash`, and `NewTransaction` requires a non-empty chain: on an empty chain `self.chain[-1]` raises `IndexError`, which the model does not represent. Every caller meets both, since the constructor passes `previous_hash=1` and the chain is never empty afterwards.
- `LastBlock` is defined only on a non-empty chain; Python's `chain[-1]` raises `IndexError` on an empty one, which is not modelled.
- `urlparse(...).netloc`: a library call, taken as the `netloc` parameter.
- `time()` is the `now` parameter, and the `uuid4` node identifier is the `nodeIdentifier` parameter.
- The `print` calls in `valid_chain` have no effect on the ledger.
- `requests.get` peer fetches: network I/O. Replies are an input sequence. Transport failures, timeouts and malformed JSON bodies (which raise in the code) are not modelled.
- The order of replies stands for the iteration order of the peer set, which the code leaves unspecified. The model proves the result for whatever order is given.
- Aliasing in `new_block`: the block keeps the old pool list object while the ledger starts a new list. Nothing mutates the old list afterwards, so value semantics is exact.
- The Flask routes, request parsing, JSON responses and command-line startup are HTTP and CLI plumbing. Only the `/mine` body is modelled, as `Mine`.
- The single global ledger instance is not modelled. `Mine` takes the ledger as a parameter.
