/**
 * Cursor pagination against a Solana JSON-RPC endpoint
 * (`fetch_solana_transactions`). The endpoint is modelled by the finite
 * sequence of its answers: the n-th call made receives `responses[n]`.
 */
module SolanaFetcher {
  import opened Common

  /** The `limit` parameter: at most this many signatures per call. */
  const BatchLimit: nat := 1000

  /** One record of the `result` list. */
  datatype Signature = Signature(signature: string, slot: int)

  /** A JSON-RPC answer; `result` is `None` when it is missing or null (an RPC error). */
  datatype Response = Response(result: Option<seq<Signature>>)

  /** The body of one `getSignaturesForAddress` call. */
  datatype Request = Request(
    rpcUrl: string, jsonrpc: string, id: int, rpcMethod: string,
    address: string, limit: nat, before: Option<string>)

  /** Why the loop ended. `RpcExhausted` is the model's own: see README. */
  datatype Stop = EmptyBatch | RpcExhausted

  /** The body of a call asking for the signatures before the cursor `before`. */
  function RequestFor(rpcUrl: string, address: string, before: Option<string>): Request
  {
    Request(rpcUrl, "2.0", 1, "getSignaturesForAddress", address, BatchLimit, before)
  }

  /** `data.get("result", [])`, with a null result read as no signatures. */
  function Batch(d: Response): seq<Signature>
  {
    match d.result
    case None => []
    case Some(txs) => txs
  }

  /**
   * The `before` cursor of call i: none on the first call, and afterwards the
   * signature of the last (oldest) record of the previous batch.
   */
  function Cursor(responses: seq<Response>, i: nat): (c: Option<string>)
    requires i <= |responses|
    requires 0 < i ==> Batch(responses[i - 1]) != []
    ensures i == 0 <==> c.None?
  {
    if i == 0 then None
    else
      var b := Batch(responses[i - 1]);
      Some(b[|b| - 1].signature)
  }

  /** The signatures of a run of batches, in order. */
  function BatchesFrom(rs: seq<Response>): seq<Signature>
  {
    if rs == [] then [] else BatchesFrom(rs[..|rs| - 1]) + Batch(rs[|rs| - 1])
  }

  /**
   * What `fetch_solana_transactions` does, stated outright. With k calls
   * made: every batch before the k-th was non-empty, whatever its size; call
   * i carried the cursor of the previous batch; the result is all those
   * batches in order; and either the k-th batch is empty, or the model ran out
   * of answers after non-empty batches only.
   */
  predicate FetchSpec(
    rpcUrl: string, address: string, responses: seq<Response>,
    txs: seq<Signature>, requests: seq<Request>, stop: Stop)
  {
    var k := |requests|;
    && k <= |responses|
    && (forall i | 0 <= i < k - 1 :: Batch(responses[i]) != [])
    && (forall i | 0 <= i < k :: requests[i] == RequestFor(rpcUrl, address, Cursor(responses, i)))
    && txs == BatchesFrom(responses[..k])
    && if stop == RpcExhausted then
         k == |responses| && (k == 0 || Batch(responses[k - 1]) != [])
       else
         0 < k && Batch(responses[k - 1]) == []
  }

  lemma {:induction false} BatchesStep(rs: seq<Response>, n: nat)
    requires n < |rs|
    ensures BatchesFrom(rs[..n + 1]) == BatchesFrom(rs[..n]) + Batch(rs[n])
  {
    assert rs[..n + 1][..n] == rs[..n];
  }

  /**
   * The loop's state after n non-empty batches: n calls made with the right
   * cursors, the batches accumulated in order, and the cursor for call n.
   */
  predicate Accumulated(
    rpcUrl: string, address: string, responses: seq<Response>,
    n: nat, txs: seq<Signature>, requests: seq<Request>, before: Option<string>)
  {
    && n <= |responses|
    && |requests| == n
    && (forall i | 0 <= i < n :: Batch(responses[i]) != [])
    && (forall i | 0 <= i < n :: requests[i] == RequestFor(rpcUrl, address, Cursor(responses, i)))
    && before == Cursor(responses, n)
    && txs == BatchesFrom(responses[..n])
  }

  /** An empty batch ends the loop as the specification says. */
  lemma {:induction false} StoppedAt(
    rpcUrl: string, address: string, responses: seq<Response>,
    n: nat, txs: seq<Signature>, requests: seq<Request>, before: Option<string>)
    requires Accumulated(rpcUrl, address, responses, n, txs, requests, before)
    requires n < |responses| && Batch(responses[n]) == []
    ensures FetchSpec(rpcUrl, address, responses, txs,
      requests + [RequestFor(rpcUrl, address, before)], EmptyBatch)
  {
    BatchesStep(responses, n);
  }

  /** A non-empty batch moves the cursor to its last signature. */
  lemma {:induction false} NextBatch(
    rpcUrl: string, address: string, responses: seq<Response>,
    n: nat, txs: seq<Signature>, requests: seq<Request>, before: Option<string>)
    requires Accumulated(rpcUrl, address, responses, n, txs, requests, before)
    requires n < |responses| && Batch(responses[n]) != []
    ensures Accumulated(rpcUrl, address, responses, n + 1, txs + Batch(responses[n]),
      requests + [RequestFor(rpcUrl, address, before)],
      Some(Batch(responses[n])[|Batch(responses[n])| - 1].signature))
  {
    BatchesStep(responses, n);
  }

  /** The pagination loop: stops only on an empty batch, never on a short one. */
  method FetchSolanaTransactions(address: string, rpcUrl: string, responses: seq<Response>)
    returns (txs: seq<Signature>, requests: seq<Request>, stop: Stop)
    ensures FetchSpec(rpcUrl, address, responses, txs, requests, stop)
  {
    txs := [];
    requests := [];
    var before: Option<string> := None;
    var n: nat := 0;
    while true
      invariant Accumulated(rpcUrl, address, responses, n, txs, requests, before)
      decreases |responses| - n
    {
      if n == |responses| {
        stop := RpcExhausted;
        assert responses[..n] == responses;
        break;
      }
      var request := RequestFor(rpcUrl, address, before);
      var batch := Batch(responses[n]);
      if batch == [] {
        StoppedAt(rpcUrl, address, responses, n, txs, requests, before);
        requests := requests + [request];
        stop := EmptyBatch;
        break;
      }
      NextBatch(rpcUrl, address, responses, n, txs, requests, before);
      requests := requests + [request];
      txs := txs + batch;
      before := Some(batch[|batch| - 1].signature);
      n := n + 1;
    }
  }

  /** The specification leaves no choice: the loop's outcome is determined by the answers. */
  lemma {:induction false} FetchSpecUnique(
    rpcUrl: string, address: string, responses: seq<Response>,
    txs1: seq<Signature>, requests1: seq<Request>, stop1: Stop,
    txs2: seq<Signature>, requests2: seq<Request>, stop2: Stop)
    requires FetchSpec(rpcUrl, address, responses, txs1, requests1, stop1)
    requires FetchSpec(rpcUrl, address, responses, txs2, requests2, stop2)
    ensures txs1 == txs2 && requests1 == requests2 && stop1 == stop2
  {
    assert |requests1| == |requests2|;
    assert requests1 == requests2;
  }

  /**
   * Answers after the empty batch that ended the loop are never consulted:
   * the same outcome holds whatever the endpoint would have answered next.
   */
  lemma {:induction false} LaterResponsesIgnored(
    rpcUrl: string, address: string, responses: seq<Response>,
    txs: seq<Signature>, requests: seq<Request>, stop: Stop, later: seq<Response>)
    requires FetchSpec(rpcUrl, address, responses, txs, requests, stop)
    requires stop == EmptyBatch
    ensures FetchSpec(rpcUrl, address, responses[..|requests|] + later, txs, requests, stop)
  {
    var k := |requests|;
    var other := responses[..k] + later;
    assert other[..k] == responses[..k];
    forall i | 0 <= i < k ensures other[i] == responses[i] {
      assert other[i] == responses[..k][i];
    }
  }

  /**
   * The cursor chain of any run: the first call has no cursor, and every
   * later call carries the last signature of the batch before it.
   */
  lemma {:induction false} CursorsFollowBatches(
    rpcUrl: string, address: string, responses: seq<Response>,
    txs: seq<Signature>, requests: seq<Request>, stop: Stop)
    requires FetchSpec(rpcUrl, address, responses, txs, requests, stop)
    ensures 0 < |requests| ==> requests[0].before == None
    ensures forall i | 0 < i < |requests| ::
      Batch(responses[i - 1]) != [] &&
      requests[i].before == Some(Batch(responses[i - 1])[|Batch(responses[i - 1])| - 1].signature)
  {
    forall i | 0 < i < |requests|
      ensures Batch(responses[i - 1]) != []
      ensures requests[i].before == Some(Batch(responses[i - 1])[|Batch(responses[i - 1])| - 1].signature)
    {
      assert requests[i] == RequestFor(rpcUrl, address, Cursor(responses, i));
    }
  }

  /**
   * Non-empty batches of any size followed by an empty one: every answer is
   * requested and the result is all batches concatenated in order.
   */
  lemma {:induction false} DrainsUntilEmpty(
    rpcUrl: string, address: string, responses: seq<Response>,
    txs: seq<Signature>, requests: seq<Request>, stop: Stop)
    requires |responses| > 0
    requires forall i | 0 <= i < |responses| - 1 :: Batch(responses[i]) != []
    requires Batch(responses[|responses| - 1]) == []
    requires FetchSpec(rpcUrl, address, responses, txs, requests, stop)
    ensures stop == EmptyBatch && |requests| == |responses|
    ensures txs == BatchesFrom(responses)
  {
    assert |requests| == |responses|;
    assert responses[..|responses|] == responses;
  }

  /**
   * A short batch does not end the loop (unlike a short EVM page): after a
   * batch of fewer than BatchLimit signatures the next call is made, with the
   * cursor at that batch's last signature, and its batch is kept.
   */
  lemma {:induction false} ShortBatchContinues(
    rpcUrl: string, address: string, b0: seq<Signature>, b1: seq<Signature>,
    txs: seq<Signature>, requests: seq<Request>, stop: Stop)
    requires 0 < |b0| < BatchLimit && b1 != []
    requires FetchSpec(rpcUrl, address,
      [Response(Some(b0)), Response(Some(b1)), Response(Some([]))], txs, requests, stop)
    ensures stop == EmptyBatch && |requests| == 3
    ensures requests[0].before == None
    ensures requests[1].before == Some(b0[|b0| - 1].signature)
    ensures requests[2].before == Some(b1[|b1| - 1].signature)
    ensures txs == b0 + b1
  {
    var rs := [Response(Some(b0)), Response(Some(b1)), Response(Some([]))];
    assert Batch(rs[0]) == b0 && Batch(rs[1]) == b1 && Batch(rs[2]) == [];
    assert |requests| == 3;
    assert rs[..3] == rs;
    assert rs[..2] == [Response(Some(b0)), Response(Some(b1))];
    assert rs[..2][..1] == [Response(Some(b0))];
    assert rs[..2][..1][..0] == [];
    assert BatchesFrom(rs[..1]) == b0;
    assert BatchesFrom(rs[..2]) == b0 + b1;
    assert BatchesFrom(rs[..3]) == b0 + b1 + [];
    assert Cursor(rs, 1) == Some(b0[|b0| - 1].signature);
    assert Cursor(rs, 2) == Some(b1[|b1| - 1].signature);
  }

  /**
   * The call count is not bounded by |txs| / BatchLimit + 1: a full batch, a
   * batch of one and an empty batch take three calls for BatchLimit + 1
   * signatures, one more than that quotient allows. CallsBounded gives the
   * bound that does hold.
   */
  lemma {:induction false} FullThenSingleBatch(
    rpcUrl: string, address: string, b0: seq<Signature>, s: Signature,
    txs: seq<Signature>, requests: seq<Request>, stop: Stop)
    requires |b0| == BatchLimit
    requires FetchSpec(rpcUrl, address,
      [Response(Some(b0)), Response(Some([s])), Response(Some([]))], txs, requests, stop)
    ensures stop == EmptyBatch && |requests| == 3 && |txs| == BatchLimit + 1
    ensures |requests| > |txs| / BatchLimit + 1
  {
    var rs := [Response(Some(b0)), Response(Some([s])), Response(Some([]))];
    assert Batch(rs[0]) == b0 && Batch(rs[1]) == [s] && Batch(rs[2]) == [];
    DrainsUntilEmpty(rpcUrl, address, rs, txs, requests, stop);
    assert rs[..2] == [Response(Some(b0)), Response(Some([s]))];
    assert rs[..2][..1] == [Response(Some(b0))];
    assert rs[..2][..1][..0] == [];
    assert rs[..|rs| - 1] == rs[..2];
    assert BatchesFrom(rs[..1]) == b0;
    assert BatchesFrom(rs[..2]) == b0 + [s];
    assert txs == b0 + [s] + [];
  }

  lemma {:induction false} BatchesLength(rs: seq<Response>)
    requires forall i | 0 <= i < |rs| :: Batch(rs[i]) != []
    ensures |BatchesFrom(rs)| >= |rs|
  {
    if rs != [] {
      BatchesLength(rs[..|rs| - 1]);
    }
  }

  lemma {:induction false} BatchesCapped(rs: seq<Response>)
    requires forall i | 0 <= i < |rs| :: |Batch(rs[i])| <= BatchLimit
    ensures |BatchesFrom(rs)| <= |rs| * BatchLimit
  {
    if rs != [] {
      BatchesCapped(rs[..|rs| - 1]);
    }
  }

  /**
   * Bounds on the number of calls: every call before the last brought at least
   * one signature, and, when the endpoint honours the limit, at most BatchLimit.
   */
  lemma {:induction false} CallsBounded(
    rpcUrl: string, address: string, responses: seq<Response>,
    txs: seq<Signature>, requests: seq<Request>, stop: Stop)
    requires FetchSpec(rpcUrl, address, responses, txs, requests, stop)
    requires stop == EmptyBatch
    ensures |requests| <= |txs| + 1
    ensures (forall i | 0 <= i < |responses| :: |Batch(responses[i])| <= BatchLimit) ==>
      |txs| <= (|requests| - 1) * BatchLimit
  {
    var k := |requests|;
    BatchesStep(responses, k - 1);
    BatchesLength(responses[..k - 1]);
    if forall i | 0 <= i < |responses| :: |Batch(responses[i])| <= BatchLimit {
      BatchesCapped(responses[..k - 1]);
    }
  }
}
