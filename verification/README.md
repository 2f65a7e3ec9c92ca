# HarryCoin ledger core in Dafny

This project models the `Blockchain` class of HarryCoin. The class is an in-memory ledger. It keeps a chain of blocks, a buffer of pending transactions and a set of known peers. Blocks are linked by hash and by a proof-of-work puzzle. Consensus adopts the longest valid chain reported by the peers.

The model is functional. A `Ledger` value holds `(chain, currentTransactions, nodes)`. Each mutating method of the class becomes a function from the old ledger to the new one, together with whatever the method returned. The modules are:

- `Wrappers`: `Option` and `Result`.
- `Decimal`: the decimal text of an integer, as an f-string renders it, and its inverse.
- `Blocks`: `Transaction`, `Block`, and the `previousHash` value.
  - That value is `HashRef`: the integer `1` in the genesis block, a digest text everywhere else.
  - Python truthiness of that value is modelled as `Truthy`.
  - `Crypto` holds the two library primitives, SHA-256 hex digest and sorted-keys JSON. They are function-valued parameters, so every result holds for every hash function.
- `ProofOfWork`: the puzzle predicate `ValidProof` and the upward search for the least valid proof.
- `ChainValidation`: the pairwise walk `validChain`. `LinksHold` is its declarative reference.
- `LedgerState`: the constructor, `newBlock`, `newTransaction`, `lastBlock` and `registerNode`.
- `Consensus`: `resolve_conflicts` over the peer replies.
  - Each reply is `Some(Response(length, chain))` or `None` (a status other than 200).
  - Replies arrive in the order the node set is iterated.

Behaviour of the code that the model follows, where a docstring suggests otherwise (`src/Blockchain.py` lines 49 and 135):

- `validChain` checks only the hash link and the proof of each pair. It never checks `index` (`ChainValidation.ValidationIgnoresIndex`).
  - A chain adopted from a peer can therefore be numbered arbitrarily.
  - In that case `newTransaction`'s returned `lastBlock.index + 1` is not the index of the next block.
  - For this reason `LedgerState.NewTransaction` promises the next block's index only on a `WellIndexed` chain. The constructor and `newBlock` keep a chain well indexed.
  - See "## Findings".
- `resolve_conflicts` compares the length a peer reports, not the length of the chain it sends. See "## Findings".
- A peer reply whose reported length beats the current maximum but whose chain is empty makes `validChain` index `chain[0]` and raise. `Consensus.ResolveConflicts` returns `Failure(EmptyPeerChain)` in exactly that case.
- `newBlock` reads `chain[-1]` only when the `previousHash` argument is falsy. So `NewBlock` requires a non-empty chain or a truthy argument. The constructor passes the truthy `1` on an empty chain.

## Model

| member | source | states |
|---|---|---|
| `Decimal.ParseNatText` | src/Blockchain.py:95 | reading the decimal text of any natural back gives the number |
| `Decimal.NatTextInjective` | src/Blockchain.py:95 | two naturals with the same decimal text are equal |
| `Decimal.IntTextInjective` | src/Blockchain.py:95 | distinct proofs are rendered as distinct texts, negative numbers included |
| `ProofOfWork.ValidProof` | src/Blockchain.py:87-97 | the slice comparison `guessHash[:4] == "0000"` holds exactly when the digest has at least four characters and its first four are zeros |
| `ProofOfWork.ProofOfWorkSearch` | src/Blockchain.py:76-85 | the returned proof is valid for `lastProof` and no smaller non-negative proof is valid (the least solution) |
| `ProofOfWork.ProofGuessIsAmbiguous` | src/Blockchain.py:95-97 | concatenating without separator makes the pairs (1, 23) and (12, 3) equally valid under every hash |
| `ProofOfWork.ProofGuessInjectiveInProof` | src/Blockchain.py:95 | for a fixed last proof, different proofs are hashed from different texts |
| `ChainValidation.ValidChain` | src/Blockchain.py:107-131 | on a non-empty chain, returns true exactly when every adjacent pair has `previousHash` equal to the hash of its predecessor and a proof valid for its predecessor's proof |
| `ChainValidation.TamperedLinkIsRejected` | src/Blockchain.py:122-123 | changing the `previousHash` of any non-genesis block of a valid chain makes validation fail |
| `ChainValidation.ValidationIgnoresIndex` | src/Blockchain.py:114-131 | a chain whose second block is numbered 7 passes validation |
| `LedgerState.Init` | src/Blockchain.py:13-17 | a fresh ledger has exactly one block, with index 1, proof 100, previous hash `1` and no transactions; nothing is pending and there are no peers; the chain is well indexed and valid |
| `LedgerState.NewBlock` | src/Blockchain.py:19-41 | the chain grows by one block with index `len(chain) + 1`; earlier blocks are unchanged; the returned block is the new last block; it carries the whole pending buffer in order and the buffer is empty afterwards; its `previousHash` is the argument when truthy and otherwise the hash of the old last block; well-indexedness is preserved |
| `LedgerState.LastBlock` | src/Blockchain.py:68-74 | the chain is the earlier blocks followed by the returned block; on a well-indexed chain its index is the chain length |
| `LedgerState.NewBlockIsLastBlock` | src/Blockchain.py:40-41 | on every ledger, the block `newBlock` returns is what `lastBlock` returns afterwards |
| `LedgerState.NewTransaction` | src/Blockchain.py:43-56 | exactly one transaction `(sender, recipient, amount)` is appended to the pending buffer; chain and peers are unchanged; on a well-indexed chain the returned index is `len(chain) + 1` |
| `LedgerState.TransactionLandsInPromisedBlock` | src/Blockchain.py:51-56 | on a well-indexed chain, the block sealed next has the index `newTransaction` returned and ends with that transaction |
| `LedgerState.NewTransactionByPosition` | src/Blockchain.py:49-56 | queues the same transaction as `newTransaction` and agrees with its returned index on every well-indexed chain |
| `LedgerState.PositionIndexLandsInPromisedBlock` | src/Blockchain.py:49-56 | on every ledger, however numbered, the index reported by position is the index of the block that then seals the transaction |
| `LedgerState.MiningKeepsChainValid` | src/application.py:23-29 | queueing the reward and sealing with the hash of the last block and a proof solving its puzzle keeps a valid chain valid |
| `LedgerState.RegisterNode` | src/Blockchain.py:99-105 | the peer set gains the network location of the address and nothing else; chain and buffer are unchanged |
| `LedgerState.RegisterNodeIdempotent` | src/Blockchain.py:99-105 | registering the same address twice is the same as registering it once |
| `LedgerState.RegisterNodeDeduplicates` | src/Blockchain.py:104-105 | two addresses with the same network location add at most one peer |
| `Consensus.ScanInvariant` | src/Blockchain.py:142-153 | after any prefix of the replies, the loop either raised at an empty chain that beat the running maximum, or `newChain` is the first reply of greatest reported length among the qualifying ones (none if none qualify) and `maxLength` is its length |
| `Consensus.ResolveConflicts` | src/Blockchain.py:133-159 | raises exactly when an empty chain reaches validation; otherwise returns true exactly when some successful reply reports a length greater than the local length and carries a valid chain; the adopted chain is the first such reply of greatest reported length; when false the ledger is unchanged; pending transactions and peers are never touched |
| `Consensus.ResolveConflictsCanShortenChain` | src/Blockchain.py:148-156 | a peer reporting length 3 with a one-block chain replaces a two-block local chain |
| `Consensus.ResolveByActualLength` | src/Blockchain.py:133-159 | judged on the received chain's length, resolution never raises and never shortens the chain; it replaces exactly when some reply carries a valid chain longer than the local one, and the adopted chain is one a peer sent, valid and at least as long as every valid reply |
| `Consensus.AdoptedChainBreaksIndexPromise` | src/Blockchain.py:56 | after adopting a valid peer chain whose second block is numbered 7, `newTransaction` returns 8 while the next `newBlock` creates block 3 |
| `Consensus.ResolveByActualLengthSettles` | src/Blockchain.py:133-159 | resolving a second time against the same replies replaces nothing |

## Findings

| source | as written | input that shows it | evidently intended | confidence | as-written member | corrected member |
|---|---|---|---|---|---|---|
| src/Blockchain.py:148-156 | the peer-reported `length` is compared with the local length and the received `chain` is adopted, whatever its actual length | local chain of two blocks; one peer replies `length = 3` with a chain holding only a genesis block | replace the chain only with a longer valid chain ("the longest one on the network", line 135) | medium, not executed | `Consensus.ResolveConflictsCanShortenChain` | `Consensus.ResolveByActualLength` |
| src/Blockchain.py:56 | `newTransaction` returns `lastBlock['index'] + 1`, while `newBlock` numbers the block `len(chain) + 1` (line 33), and `validChain` never checks `index` | local chain `[genesis]`; one peer replies `length = 2` with a valid chain `[genesis, block numbered 7]`; after adoption `newTransaction` returns 8 and the next block is 3 | return the index of the block that will hold the transaction (docstring, line 49) | medium, not executed | `Consensus.AdoptedChainBreaksIndexPromise` | `LedgerState.NewTransactionByPosition` |

## Left out

- SHA-256, `hexdigest` and `json.dumps(sort_keys=True)` are the uninterpreted `Crypto` fields. Canonical serialisation and collision resistance are not modelled. So the claim that reordering a block's transactions changes its hash cannot be stated.
- `time()`: the timestamp is a `real` parameter of `NewBlock` and `Init`.
- `requests.get`: the peer replies are an input sequence.
  - Timeouts and exceptions raised by `requests` are not modelled.
  - Bodies without `length` or `chain`, or with values of the wrong type, are not modelled either.
- `urlparse(...).netloc` is the function parameter `netloc` of `RegisterNode`.
- The iteration order of the node set is not modelled. The model takes the replies in whatever order the caller supplies and only requires one reply per peer.
- The `print` calls inside `validChain` have no effect on the ledger and are not modelled.
- Locking and concurrent access from the web server's threads are not modelled.
- `src/application.py` (HTTP routes, JSON responses, `uuid4` node identity) is not part of this model. Its mining sequence appears only as the scenario of `LedgerState.MiningKeepsChainValid`.
- `ProofOfWork.ProofOfWorkSearch`: the caller must name some valid proof `bound` so that the loop terminates. The source loops forever when no valid proof exists.
- Transaction `sender` and `recipient` are strings and `amount` is an integer. The source stores whatever JSON values the caller sends for all three (`src/application.py` line 51).
