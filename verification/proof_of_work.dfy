/** The proof-of-work puzzle: a verification predicate over pairs of proofs and the
    brute-force search for the least proof that satisfies it. */
module ProofOfWork {
  import opened Decimal
  import opened Blocks

  /** The run of zeros a winning digest must start with (difficulty 4). */
  const Difficulty: string := "0000"

  /** Python's `s[:n]`: the first `n` characters, or all of `s` when it is shorter. */
  function Prefix(s: string, n: nat): (r: string)
    ensures |r| == if |s| < n then |s| else n
    ensures r == s[..|r|]
  {
    if |s| < n then s else s[..n]
  }

  /** A digest starts with `n` zero characters. */
  predicate LeadingZeros(d: string, n: nat) {
    |d| >= n && forall i :: 0 <= i < n ==> d[i] == '0'
  }

  /** The text that is hashed: both proofs in decimal, concatenated without separator. */
  function ProofGuess(lastProof: int, proof: int): string {
    IntText(lastProof) + IntText(proof)
  }

  /** `proof` solves the puzzle posed by `lastProof`. */
  function ValidProof(c: Crypto, lastProof: int, proof: int): (ok: bool)
    ensures ok <==> LeadingZeros(c.sha256Hex(ProofGuess(lastProof, proof)), |Difficulty|)
  {
    Prefix(c.sha256Hex(ProofGuess(lastProof, proof)), |Difficulty|) == Difficulty
  }

  /** Searches upward from 0 for the first valid proof. The search is unbounded in the
      source; here the caller names some valid proof `bound`, which makes it terminate. */
  method ProofOfWorkSearch(c: Crypto, lastProof: int, ghost bound: nat) returns (proof: nat)
    requires ValidProof(c, lastProof, bound)
    ensures ValidProof(c, lastProof, proof)
    ensures forall q :: 0 <= q < proof ==> !ValidProof(c, lastProof, q)
  {
    proof := 0;
    while !ValidProof(c, lastProof, proof)
      invariant proof <= bound
      invariant forall q :: 0 <= q < proof ==> !ValidProof(c, lastProof, q)
      decreases bound - proof
    {
      proof := proof + 1;
    }
  }

  /** The puzzle sees only the concatenated text, so the pairs (1, 23) and (12, 3)
      stand or fall together under every hash function. */
  lemma ProofGuessIsAmbiguous(c: Crypto)
    ensures ValidProof(c, 1, 23) == ValidProof(c, 12, 3)
  {
    assert NatText(23) == NatText(2) + [DigitChar(3)];
    assert NatText(12) == NatText(1) + [DigitChar(2)];
    assert ProofGuess(1, 23) == ProofGuess(12, 3);
  }

  /** Different pairs with the same first proof are hashed from different texts. */
  lemma ProofGuessInjectiveInProof(lastProof: int, p: int, q: int)
    ensures ProofGuess(lastProof, p) == ProofGuess(lastProof, q) ==> p == q
  {
    if ProofGuess(lastProof, p) == ProofGuess(lastProof, q) {
      var k := |IntText(lastProof)|;
      assert IntText(p) == ProofGuess(lastProof, p)[k..];
      assert IntText(q) == ProofGuess(lastProof, q)[k..];
      IntTextInjective(p, q);
    }
  }
}
