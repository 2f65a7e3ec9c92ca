/** The consensus rule: adopt the longest valid chain reported by the known peers. */
module Consensus {
  import opened Wrappers
  import opened Blocks
  import opened ChainValidation
  import opened LedgerState

  /** A successful reply to `GET /chain`: the length the peer reports and its chain. */
  datatype Response = Response(length: int, chain: seq<Block>)

  /** `validChain` indexes `chain[0]` unguarded, so an empty chain from a peer raises. */
  datatype ResolveError = EmptyPeerChain

  /** The adopted ledger and whether the chain was replaced. */
  datatype Resolution = Resolution(ledger: Ledger, replaced: bool)

  /** The loop variables `maxLength` and `newChain`. */
  datatype ScanState = ScanState(maxLength: int, newChain: Option<seq<Block>>)

  /** A reply that may replace a chain of length `local`: a successful response whose
      reported length beats `local` and whose chain is non-empty and valid. */
  predicate Qualifies(c: Crypto, rsp: Option<Response>, local: int) {
    rsp.Some? && rsp.value.length > local && |rsp.value.chain| > 0 && LinksHold(c, rsp.value.chain)
  }

  /** Reply `k` is the first of greatest reported length among the qualifying replies in `rs[..n]`. */
  predicate FirstLongest(c: Crypto, local: int, rs: seq<Option<Response>>, k: nat, n: nat)
    requires k < n <= |rs|
  {
    && Qualifies(c, rs[k], local)
    && (forall j :: 0 <= j < k && Qualifies(c, rs[j], local) ==> rs[j].value.length < rs[k].value.length)
    && (forall j :: k < j < n && Qualifies(c, rs[j], local) ==> rs[j].value.length <= rs[k].value.length)
  }

  /** Reply `k` reaches `validChain` with an empty chain: its reported length beats the
      local length and every earlier qualifying reply. */
  predicate Trips(c: Crypto, local: int, rs: seq<Option<Response>>, k: nat)
    requires k < |rs|
  {
    && rs[k].Some?
    && |rs[k].value.chain| == 0
    && rs[k].value.length > local
    && forall j :: 0 <= j < k && Qualifies(c, rs[j], local) ==> rs[j].value.length < rs[k].value.length
  }

  /** One iteration of the loop over the peers. */
  function Step(c: Crypto, s: ScanState, rsp: Option<Response>): Result<ScanState, ResolveError> {
    match rsp
    case None => Success(s)
    case Some(r) =>
      if r.length > s.maxLength then
        if |r.chain| == 0 then Failure(EmptyPeerChain)
        else if LinksHold(c, r.chain) then Success(ScanState(r.length, Some(r.chain)))
        else Success(s)
      else Success(s)
  }

  /** The loop variables after the first `n` replies, starting from the local length. */
  function Scan(c: Crypto, local: int, rs: seq<Option<Response>>, n: nat): Result<ScanState, ResolveError>
    requires n <= |rs|
    decreases n
  {
    if n == 0 then Success(ScanState(local, None))
    else
      var s :- Scan(c, local, rs, n - 1);
      Step(c, s, rs[n - 1])
  }

  /** What the loop has established after `n` replies. */
  lemma {:induction false} ScanInvariant(c: Crypto, local: int, rs: seq<Option<Response>>, n: nat)
    requires n <= |rs|
    ensures Scan(c, local, rs, n).Failure? ==> exists k :: 0 <= k < n && Trips(c, local, rs, k)
    ensures Scan(c, local, rs, n).Success? ==>
              var s := Scan(c, local, rs, n).value;
              && (forall k :: 0 <= k < n ==> !Trips(c, local, rs, k))
              && s.maxLength >= local
              && (forall j :: 0 <= j < n && Qualifies(c, rs[j], local) ==> rs[j].value.length <= s.maxLength)
              && (s.newChain.None? ==> s.maxLength == local && forall j :: 0 <= j < n ==> !Qualifies(c, rs[j], local))
              && (s.newChain.Some? ==> exists k :: 0 <= k < n && FirstLongest(c, local, rs, k, n)
                                                  && s.newChain.value == rs[k].value.chain
                                                  && s.maxLength == rs[k].value.length)
    decreases n
  {
    if n > 0 {
      ScanInvariant(c, local, rs, n - 1);
      var prev := Scan(c, local, rs, n - 1);
      if prev.Success? {
        var s := prev.value;
        var rsp := rs[n - 1];
        if s.newChain.Some? {
          var k :| 0 <= k < n - 1 && FirstLongest(c, local, rs, k, n - 1)
                   && s.newChain.value == rs[k].value.chain && s.maxLength == rs[k].value.length;
          var next := Step(c, s, rsp);
          if next.Failure? {
            assert Trips(c, local, rs, n - 1);
          } else if next.value == s {
            assert FirstLongest(c, local, rs, k, n);
          } else if next.Success? {
            assert FirstLongest(c, local, rs, n - 1, n);
          }
        } else {
          var next := Step(c, s, rsp);
          if next.Failure? {
            assert Trips(c, local, rs, n - 1);
          } else if next.value != s {
            assert FirstLongest(c, local, rs, n - 1, n);
          }
        }
      }
    }
  }

  /** `resolve_conflicts`: `responses[i]` is the reply of the i-th peer in the order the node
      set is iterated, `None` for a reply whose status is not 200. */
  function ResolveConflicts(c: Crypto, l: Ledger, responses: seq<Option<Response>>): (r: Result<Resolution, ResolveError>)
    requires |responses| == |l.nodes|
    ensures r.Failure? <==> exists k :: 0 <= k < |responses| && Trips(c, |l.chain|, responses, k)
    ensures r.Success? ==> r.value.ledger.currentTransactions == l.currentTransactions
    ensures r.Success? ==> r.value.ledger.nodes == l.nodes
    ensures r.Success? ==>
              (r.value.replaced <==> exists k :: 0 <= k < |responses| && Qualifies(c, responses[k], |l.chain|))
    ensures r.Success? && !r.value.replaced ==> r.value.ledger == l
    ensures r.Success? && r.value.replaced ==>
              exists k :: 0 <= k < |responses| && FirstLongest(c, |l.chain|, responses, k, |responses|)
                          && r.value.ledger.chain == responses[k].value.chain
  {
    ScanInvariant(c, |l.chain|, responses, |responses|);
    match Scan(c, |l.chain|, responses, |responses|)
    case Failure(e) => Failure(e)
    case Success(s) =>
      if s.newChain.Some? && |s.newChain.value| > 0 then
        Success(Resolution(l.(chain := s.newChain.value), true))
      else
        Success(Resolution(l, false))
  }

  /** A reply whose reported length is the length of the chain it carries. */
  function Honest(rsp: Option<Response>): Option<Response> {
    match rsp
    case None => None
    case Some(r) => Some(Response(|r.chain|, r.chain))
  }

  /** Every reply rewritten by `Honest`. */
  function HonestReplies(responses: seq<Option<Response>>): seq<Option<Response>> {
    seq(|responses|, i requires 0 <= i < |responses| => Honest(responses[i]))
  }

  /** A successful reply carrying a valid chain longer than `local`. */
  predicate LongerValid(c: Crypto, rsp: Option<Response>, local: int) {
    rsp.Some? && |rsp.value.chain| > local && LinksHold(c, rsp.value.chain)
  }

  /** With honest lengths an empty chain never beats a non-negative local length, and a
      reply qualifies exactly when its chain is valid and longer. */
  lemma HonestRepliesFacts(c: Crypto, local: nat, responses: seq<Option<Response>>)
    ensures forall k :: 0 <= k < |responses| ==> !Trips(c, local, HonestReplies(responses), k)
    ensures forall k :: 0 <= k < |responses| ==>
              (Qualifies(c, HonestReplies(responses)[k], local) <==> LongerValid(c, responses[k], local))
  {
  }

  /** The first longest honest reply is at least as long as every valid reply. */
  lemma HonestPickIsLongest(c: Crypto, local: nat, responses: seq<Option<Response>>, k: nat)
    requires k < |responses|
    requires FirstLongest(c, local, HonestReplies(responses), k, |responses|)
    ensures LongerValid(c, responses[k], local)
    ensures forall j :: 0 <= j < |responses| && responses[j].Some? && LinksHold(c, responses[j].value.chain)
                        ==> |responses[j].value.chain| <= |responses[k].value.chain|
  {
    HonestRepliesFacts(c, local, responses);
    var h := HonestReplies(responses);
    forall j | 0 <= j < |responses| && responses[j].Some? && LinksHold(c, responses[j].value.chain)
      ensures |responses[j].value.chain| <= |responses[k].value.chain|
    {
      if |responses[j].value.chain| > local {
        assert Qualifies(c, h[j], local);
      }
    }
  }

  /** The consensus rule judged on the length of each received chain instead of the length
      the peer reports. */
  function ResolveByActualLength(c: Crypto, l: Ledger, responses: seq<Option<Response>>): (r: Result<Resolution, ResolveError>)
    requires |responses| == |l.nodes|
    ensures r.Success?
    ensures r.value.ledger.currentTransactions == l.currentTransactions && r.value.ledger.nodes == l.nodes
    ensures |r.value.ledger.chain| >= |l.chain|
    ensures r.value.replaced ==> |r.value.ledger.chain| > |l.chain| && LinksHold(c, r.value.ledger.chain)
    ensures !r.value.replaced ==> r.value.ledger == l
    ensures r.value.replaced <==> exists k :: 0 <= k < |responses| && LongerValid(c, responses[k], |l.chain|)
    ensures r.value.replaced ==>
              exists k :: 0 <= k < |responses| && LongerValid(c, responses[k], |l.chain|)
                          && r.value.ledger.chain == responses[k].value.chain
    ensures r.value.replaced ==>
              forall k :: 0 <= k < |responses| && responses[k].Some? && LinksHold(c, responses[k].value.chain)
                          ==> |responses[k].value.chain| <= |r.value.ledger.chain|
  {
    var honest := HonestReplies(responses);
    HonestRepliesFacts(c, |l.chain|, responses);
    var r := ResolveConflicts(c, l, honest);
    if r.Success? && r.value.replaced then
      var k :| 0 <= k < |honest| && FirstLongest(c, |l.chain|, honest, k, |honest|)
               && r.value.ledger.chain == honest[k].value.chain;
      HonestPickIsLongest(c, |l.chain|, responses, k);
      r
    else
      r
  }

  /** Once the longest valid chain has been adopted, resolving again against the same
      replies replaces nothing. */
  lemma ResolveByActualLengthSettles(c: Crypto, l: Ledger, responses: seq<Option<Response>>)
    requires |responses| == |l.nodes|
    ensures var first := ResolveByActualLength(c, l, responses).value.ledger;
            !ResolveByActualLength(c, first, responses).value.replaced
  {
  }

  /** Trusting the reported length lets a peer replace a two-block chain with a one-block
      chain by reporting length 3. */
  lemma ResolveConflictsCanShortenChain()
    ensures var c := Crypto(s => "0000", b => "");
            var g := Block(1, 0.0, [], GenesisProof, GenesisPreviousHash);
            var l := Ledger([g, Block(2, 1.0, [], 0, TextRef("0000"))], [], {"peer"});
            var r := ResolveConflicts(c, l, [Some(Response(3, [g]))]);
            r.Success? && r.value.replaced && |r.value.ledger.chain| < |l.chain|
  {
    var c := Crypto(s => "0000", b => "");
    var g := Block(1, 0.0, [], GenesisProof, GenesisPreviousHash);
    var l := Ledger([g, Block(2, 1.0, [], 0, TextRef("0000"))], [], {"peer"});
    var rs := [Some(Response(3, [g]))];
    assert Qualifies(c, rs[0], |l.chain|);
    assert !Trips(c, |l.chain|, rs, 0);
  }

  /** `validChain` never checks `index`, so a peer can hand over a valid chain whose last
      block is numbered 7 at position 2. After adopting it, `newTransaction` promises
      block 8 while the next `newBlock` creates block 3. */
  lemma AdoptedChainBreaksIndexPromise()
    ensures var c := Crypto(s => "0000", b => "");
            var g := Block(1, 0.0, [], GenesisProof, GenesisPreviousHash);
            var l := Ledger([g], [], {"peer"});
            var r := ResolveConflicts(c, l, [Some(Response(2, [g, Block(7, 0.0, [], 0, TextRef("0000"))]))]);
            && r.Success? && r.value.replaced
            && var t := NewTransaction(r.value.ledger, "a", "b", 1);
               var s := NewBlock(c, t.ledger, 0, None, 1.0);
               t.index == 8 && s.block.index == 3
  {
    var c := Crypto(s => "0000", b => "");
    var g := Block(1, 0.0, [], GenesisProof, GenesisPreviousHash);
    var b7 := Block(7, 0.0, [], 0, TextRef("0000"));
    var l := Ledger([g], [], {"peer"});
    var rs := [Some(Response(2, [g, b7]))];
    assert BlockHash(c, g) == "0000";
    assert LinkOk(c, [g, b7][0], [g, b7][1]);
    assert Qualifies(c, rs[0], |l.chain|);
  }
}
