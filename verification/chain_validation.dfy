/** Validation of a whole chain, local or received from a peer. */
module ChainValidation {
  import opened Blocks
  import opened ProofOfWork

  /** `cur` may follow `prev`: it names the hash of `prev` and solves the puzzle of `prev`'s proof. */
  predicate LinkOk(c: Crypto, prev: Block, cur: Block) {
    cur.previousHash == TextRef(BlockHash(c, prev)) && ValidProof(c, prev.proof, cur.proof)
  }

  /** Every adjacent pair of the chain is linked. */
  predicate LinksHold(c: Crypto, chain: seq<Block>) {
    forall i :: 1 <= i < |chain| ==> LinkOk(c, chain[i - 1], chain[i])
  }

  /** Walks the chain pairwise from the front and stops at the first broken link. */
  method ValidChain(c: Crypto, chain: seq<Block>) returns (ok: bool)
    requires |chain| > 0
    ensures ok <==> LinksHold(c, chain)
  {
    var lastBlock := chain[0];
    var currentIndex := 1;
    while currentIndex < |chain|
      invariant 1 <= currentIndex <= |chain|
      invariant lastBlock == chain[currentIndex - 1]
      invariant forall i :: 1 <= i < currentIndex ==> LinkOk(c, chain[i - 1], chain[i])
    {
      var block := chain[currentIndex];
      if block.previousHash != TextRef(BlockHash(c, lastBlock)) {
        return false;
      }
      if !ValidProof(c, lastBlock.proof, block.proof) {
        return false;
      }
      lastBlock := block;
      currentIndex := currentIndex + 1;
    }
    return true;
  }

  /** Altering the `previousHash` of any non-genesis block of a valid chain makes it invalid. */
  lemma TamperedLinkIsRejected(c: Crypto, chain: seq<Block>, i: nat, forged: HashRef)
    requires LinksHold(c, chain)
    requires 1 <= i < |chain|
    requires forged != chain[i].previousHash
    ensures !LinksHold(c, chain[i := chain[i].(previousHash := forged)])
  {
    var t := chain[i := chain[i].(previousHash := forged)];
    assert !LinkOk(c, t[i - 1], t[i]);
  }

  /** Validation never looks at `index`: under a hash whose digests all start with zeros,
      a genesis block followed by a block numbered 7 passes. */
  lemma ValidationIgnoresIndex()
    ensures var c := Crypto(s => "0000", b => "");
            var g := Block(1, 0.0, [], GenesisProof, GenesisPreviousHash);
            var b := Block(7, 0.0, [], 0, TextRef("0000"));
            LinksHold(c, [g, b]) && b.index != g.index + 1
  {
    var c := Crypto(s => "0000", b => "");
    var g := Block(1, 0.0, [], GenesisProof, GenesisPreviousHash);
    var b := Block(7, 0.0, [], 0, TextRef("0000"));
    assert BlockHash(c, g) == "0000";
    assert ValidProof(c, g.proof, b.proof);
    assert LinkOk(c, [g, b][0], [g, b][1]);
  }
}
