/** The node's ledger: its chain, the buffer of pending transactions and the set of
    known peers, with the operations that change them. */
module LedgerState {
  import opened Wrappers
  import opened Blocks
  import opened ProofOfWork
  import opened ChainValidation

  datatype Ledger = Ledger(chain: seq<Block>, currentTransactions: seq<Transaction>, nodes: set<string>)

  /** What `newBlock` leaves behind: the updated ledger and the block it returned. */
  datatype Sealed = Sealed(ledger: Ledger, block: Block)

  /** What `newTransaction` leaves behind: the updated ledger and the index it returned. */
  datatype Submitted = Submitted(ledger: Ledger, index: int)

  /** Every block's `index` is its 1-based position. */
  predicate WellIndexed(chain: seq<Block>) {
    forall i :: 0 <= i < |chain| ==> chain[i].index == i + 1
  }

  /** The `previousHash` a new block receives: the argument when it is truthy,
      otherwise the hash of the current last block. */
  function LinkFor(c: Crypto, chain: seq<Block>, previousHash: Option<HashRef>): HashRef
    requires |chain| > 0 || (previousHash.Some? && Truthy(previousHash.value))
  {
    if previousHash.Some? && Truthy(previousHash.value) then previousHash.value
    else TextRef(BlockHash(c, chain[|chain| - 1]))
  }

  /** Seals the whole pending buffer into a new block appended to the chain. */
  function NewBlock(c: Crypto, l: Ledger, proof: int, previousHash: Option<HashRef>, timestamp: real): (r: Sealed)
    requires |l.chain| > 0 || (previousHash.Some? && Truthy(previousHash.value))
    ensures |r.ledger.chain| == |l.chain| + 1
    ensures r.ledger.chain[..|l.chain|] == l.chain
    ensures r.block == r.ledger.chain[|l.chain|]
    ensures r.block.index == |l.chain| + 1
    ensures r.block.transactions == l.currentTransactions
    ensures r.ledger.currentTransactions == []
    ensures r.block.proof == proof && r.block.timestamp == timestamp
    ensures previousHash.Some? && Truthy(previousHash.value) ==> r.block.previousHash == previousHash.value
    ensures previousHash.None? || !Truthy(previousHash.value) ==>
              r.block.previousHash == TextRef(BlockHash(c, l.chain[|l.chain| - 1]))
    ensures r.ledger.nodes == l.nodes
    ensures WellIndexed(l.chain) ==> WellIndexed(r.ledger.chain)
  {
    var block := Block(|l.chain| + 1, timestamp, l.currentTransactions, proof, LinkFor(c, l.chain, previousHash));
    Sealed(Ledger(l.chain + [block], [], l.nodes), block)
  }

  /** A fresh ledger: the genesis block only, nothing pending, no peers. */
  function Init(c: Crypto, timestamp: real): (l: Ledger)
    ensures |l.chain| == 1
    ensures l.chain[0].index == 1
    ensures l.chain[0].proof == GenesisProof
    ensures l.chain[0].previousHash == GenesisPreviousHash
    ensures l.chain[0].transactions == []
    ensures l.currentTransactions == [] && l.nodes == {}
    ensures WellIndexed(l.chain) && LinksHold(c, l.chain)
  {
    NewBlock(c, Ledger([], [], {}), GenesisProof, Some(GenesisPreviousHash), timestamp).ledger
  }

  /** The most recently appended block. */
  function LastBlock(l: Ledger): (b: Block)
    requires |l.chain| > 0
    ensures l.chain == l.chain[..|l.chain| - 1] + [b]
    ensures WellIndexed(l.chain) ==> b.index == |l.chain|
  {
    l.chain[|l.chain| - 1]
  }

  /** Queues a transaction for the next block and reports the index that block is expected to get. */
  function NewTransaction(l: Ledger, sender: string, recipient: string, amount: int): (r: Submitted)
    requires |l.chain| > 0
    ensures r.ledger.currentTransactions == l.currentTransactions + [Transaction(sender, recipient, amount)]
    ensures r.ledger.chain == l.chain && r.ledger.nodes == l.nodes
    ensures WellIndexed(l.chain) ==> r.index == |l.chain| + 1
  {
    var tx := Transaction(sender, recipient, amount);
    Submitted(l.(currentTransactions := l.currentTransactions + [tx]), LastBlock(l).index + 1)
  }

  /** Reports the index of the next block by the chain's length rather than by the last
      block's `index` field, so the promise holds on every chain, however it is numbered. */
  function NewTransactionByPosition(l: Ledger, sender: string, recipient: string, amount: int): (r: Submitted)
    requires |l.chain| > 0
    ensures r.ledger == NewTransaction(l, sender, recipient, amount).ledger
    ensures WellIndexed(l.chain) ==> r.index == NewTransaction(l, sender, recipient, amount).index
  {
    Submitted(NewTransaction(l, sender, recipient, amount).ledger, |l.chain| + 1)
  }

  /** Adds the network location of `address` to the peer set; `netloc` stands for the
      URL parser's authority extraction. */
  function RegisterNode(l: Ledger, address: string, netloc: string -> string): (r: Ledger)
    ensures netloc(address) in r.nodes
    ensures l.nodes <= r.nodes && r.nodes - l.nodes <= {netloc(address)}
    ensures r.chain == l.chain && r.currentTransactions == l.currentTransactions
  {
    l.(nodes := l.nodes + {netloc(address)})
  }

  /** Registering the same address twice changes nothing the second time. */
  lemma RegisterNodeIdempotent(l: Ledger, address: string, netloc: string -> string)
    ensures RegisterNode(RegisterNode(l, address, netloc), address, netloc) == RegisterNode(l, address, netloc)
  {
  }

  /** Addresses with the same network location are one peer. */
  lemma RegisterNodeDeduplicates(l: Ledger, a: string, b: string, netloc: string -> string)
    requires netloc(a) == netloc(b)
    ensures RegisterNode(RegisterNode(l, a, netloc), b, netloc) == RegisterNode(l, a, netloc)
    ensures |RegisterNode(l, a, netloc).nodes| <= |l.nodes| + 1
  {
    var r := RegisterNode(l, a, netloc);
    if netloc(a) in l.nodes {
      assert r.nodes == l.nodes;
    }
  }

  /** A transaction queued on a well-indexed ledger lands, last, in the block with the
      index `newTransaction` promised. */
  lemma TransactionLandsInPromisedBlock(
    c: Crypto, l: Ledger, sender: string, recipient: string, amount: int,
    proof: int, previousHash: Option<HashRef>, timestamp: real)
    requires |l.chain| > 0 && WellIndexed(l.chain)
    ensures var t := NewTransaction(l, sender, recipient, amount);
            var s := NewBlock(c, t.ledger, proof, previousHash, timestamp);
            && s.block.index == t.index
            && s.block.transactions == l.currentTransactions + [Transaction(sender, recipient, amount)]
            && s.ledger.currentTransactions == []
  {
  }

  /** The block sealed next is the new last block, on every ledger. */
  lemma NewBlockIsLastBlock(c: Crypto, l: Ledger, proof: int, previousHash: Option<HashRef>, timestamp: real)
    requires |l.chain| > 0 || (previousHash.Some? && Truthy(previousHash.value))
    ensures var s := NewBlock(c, l, proof, previousHash, timestamp);
            LastBlock(s.ledger) == s.block
  {
  }

  /** Whatever the numbering of the chain, the index reported by position is the index
      of the block that then seals the transaction. */
  lemma PositionIndexLandsInPromisedBlock(
    c: Crypto, l: Ledger, sender: string, recipient: string, amount: int,
    proof: int, previousHash: Option<HashRef>, timestamp: real)
    requires |l.chain| > 0
    ensures var t := NewTransactionByPosition(l, sender, recipient, amount);
            var s := NewBlock(c, t.ledger, proof, previousHash, timestamp);
            && s.block.index == t.index
            && s.block.transactions == l.currentTransactions + [Transaction(sender, recipient, amount)]
  {
  }

  /** Mining as the node does it (queue the reward, then seal with the hash of the last
      block) keeps a valid chain valid whenever the proof solves the last block's puzzle. */
  lemma MiningKeepsChainValid(
    c: Crypto, l: Ledger, proof: int, miner: string, timestamp: real)
    requires |l.chain| > 0 && LinksHold(c, l.chain)
    requires ValidProof(c, LastBlock(l).proof, proof)
    ensures var t := NewTransaction(l, "0", miner, 1);
            var s := NewBlock(c, t.ledger, proof, Some(TextRef(BlockHash(c, LastBlock(l)))), timestamp);
            LinksHold(c, s.ledger.chain)
  {
    var t := NewTransaction(l, "0", miner, 1);
    var s := NewBlock(c, t.ledger, proof, Some(TextRef(BlockHash(c, LastBlock(l)))), timestamp);
    var n := |l.chain|;
    assert s.ledger.chain[..n] == l.chain;
    forall i | 1 <= i < n + 1
      ensures LinkOk(c, s.ledger.chain[i - 1], s.ledger.chain[i])
    {
      if i < n {
        assert s.ledger.chain[i - 1] == l.chain[i - 1] && s.ledger.chain[i] == l.chain[i];
      } else {
        assert s.ledger.chain[i - 1] == LastBlock(l);
      }
    }
  }
}
