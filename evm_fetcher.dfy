/**
 * Offset pagination against an Etherscan-family explorer
 * (`fetch_evm_transactions`). The explorer is modelled by the finite sequence
 * of the responses it gives: the n-th request made receives `responses[n]`.
 */
module EvmFetcher {
  import opened Common
  import opened Chains

  /** The `offset` parameter: the number of records asked for per page. */
  const PageSize: nat := 10000
  const StartBlock: int := 0
  const EndBlock: int := 99999999
  /** The `status` of a successful answer. */
  const StatusOk: string := "1"
  /** The `message` that accompanies an empty history; it is not an error. */
  const NoTransactionsFound: string := "No transactions found"

  /** One record of the explorer's `result` list, passed on untouched. */
  datatype Transaction = Transaction(
    hash: string, blockNumber: string, timeStamp: string,
    from: string, to: string, value: string)

  /** An explorer answer; `result` is `None` when the field is missing. */
  datatype Response = Response(status: string, message: string, result: Option<seq<Transaction>>)

  /** The URL and query parameters of one `txlist` request. */
  datatype Request = Request(
    url: string, apiModule: string, action: string, address: string,
    startBlock: int, endBlock: int, page: nat, offset: nat, sort: string, apiKey: string)

  /** Why the loop ended. `ResponsesExhausted` is the model's own: see README. */
  datatype Stop = ApiError(message: string) | NoRecords | ShortPage | ResponsesExhausted

  /** The request for page `page` (pages count from 1). */
  function RequestFor(url: string, address: string, apiKey: string, page: nat): Request
  {
    Request(url, "account", "txlist", address, StartBlock, EndBlock, page, PageSize, "asc", apiKey)
  }

  /** A failure status with any message other than the empty-history sentinel. */
  predicate IsApiError(d: Response)
  {
    d.status != StatusOk && d.message != NoTransactionsFound
  }

  /** `data.get('result', [])`. */
  function Records(d: Response): seq<Transaction>
  {
    match d.result
    case None => []
    case Some(txs) => txs
  }

  /** A page after which the loop asks for the next one. */
  predicate IsFullPage(d: Response)
  {
    !IsApiError(d) && |Records(d)| >= PageSize
  }

  /** What one response adds to the accumulator. */
  function Taken(d: Response): seq<Transaction>
  {
    if IsApiError(d) then [] else Records(d)
  }

  /** The reason a response that is not a full page ends the loop. */
  function StopAt(d: Response): (s: Stop)
    requires !IsFullPage(d)
    ensures s != ResponsesExhausted
    ensures s.ApiError? <==> IsApiError(d)
    ensures s.ApiError? ==> s.message == d.message
    ensures s == NoRecords <==> !IsApiError(d) && Records(d) == []
    ensures s == ShortPage <==> !IsApiError(d) && 0 < |Records(d)| < PageSize
  {
    if IsApiError(d) then ApiError(d.message)
    else if Records(d) == [] then NoRecords
    else ShortPage
  }

  /** The records taken from a run of responses, in order. */
  function TakenFrom(rs: seq<Response>): seq<Transaction>
  {
    if rs == [] then [] else TakenFrom(rs[..|rs| - 1]) + Taken(rs[|rs| - 1])
  }

  /**
   * What `fetch_evm_transactions` does, stated outright. With k requests made:
   * request i asks for page i + 1; every page before the k-th was full; the
   * result is what the first k responses contributed, in order; and either
   * the k-th response is not a full page and says why the loop stopped, or the
   * model ran out of responses after full pages only.
   */
  predicate FetchSpec(
    url: string, address: string, apiKey: string, responses: seq<Response>,
    txs: seq<Transaction>, requests: seq<Request>, stop: Stop)
  {
    var k := |requests|;
    && k <= |responses|
    && (forall i | 0 <= i < k :: requests[i] == RequestFor(url, address, apiKey, i + 1))
    && (forall i | 0 <= i < k - 1 :: IsFullPage(responses[i]))
    && txs == TakenFrom(responses[..k])
    && if stop == ResponsesExhausted then
         k == |responses| && (k == 0 || IsFullPage(responses[k - 1]))
       else
         0 < k && !IsFullPage(responses[k - 1]) && stop == StopAt(responses[k - 1])
  }

  lemma {:induction false} TakenStep(rs: seq<Response>, n: nat)
    requires n < |rs|
    ensures TakenFrom(rs[..n + 1]) == TakenFrom(rs[..n]) + Taken(rs[n])
  {
    assert rs[..n + 1][..n] == rs[..n];
  }

  /**
   * The loop's state after n full pages: n requests for pages 1 to n, and the
   * records of those pages accumulated in order.
   */
  predicate Accumulated(
    url: string, address: string, apiKey: string, responses: seq<Response>,
    n: nat, txs: seq<Transaction>, requests: seq<Request>)
  {
    && n <= |responses|
    && |requests| == n
    && (forall i | 0 <= i < n :: requests[i] == RequestFor(url, address, apiKey, i + 1))
    && (forall i | 0 <= i < n :: IsFullPage(responses[i]))
    && txs == TakenFrom(responses[..n])
  }

  /** A response that is not a full page ends the loop as the specification says. */
  lemma {:induction false} StoppedAt(
    url: string, address: string, apiKey: string, responses: seq<Response>,
    n: nat, txs: seq<Transaction>, requests: seq<Request>)
    requires Accumulated(url, address, apiKey, responses, n, txs, requests)
    requires n < |responses| && !IsFullPage(responses[n])
    ensures FetchSpec(url, address, apiKey, responses, txs + Taken(responses[n]),
      requests + [RequestFor(url, address, apiKey, n + 1)], StopAt(responses[n]))
  {
    TakenStep(responses, n);
  }

  /** Going on to the next page keeps the loop's state. */
  lemma {:induction false} NextPage(
    url: string, address: string, apiKey: string, responses: seq<Response>,
    n: nat, txs: seq<Transaction>, requests: seq<Request>)
    requires Accumulated(url, address, apiKey, responses, n, txs, requests)
    requires n < |responses| && IsFullPage(responses[n])
    ensures Accumulated(url, address, apiKey, responses, n + 1, txs + Records(responses[n]),
      requests + [RequestFor(url, address, apiKey, n + 1)])
  {
    TakenStep(responses, n);
  }

  /**
   * The pagination loop. Stops on an API error, on an empty page and after a
   * short page; otherwise asks for the next page.
   */
  method FetchEvmTransactions(chain: Chain, address: string, apiKey: string, responses: seq<Response>)
    returns (txs: seq<Transaction>, requests: seq<Request>, stop: Stop)
    requires IsEvm(chain)
    ensures FetchSpec(Explorer(chain).value, address, apiKey, responses, txs, requests, stop)
  {
    var url := Explorer(chain).value;
    txs := [];
    requests := [];
    var page: nat := 1;
    while true
      invariant 1 <= page
      invariant Accumulated(url, address, apiKey, responses, page - 1, txs, requests)
      decreases |responses| + 1 - page
    {
      if page > |responses| {
        stop := ResponsesExhausted;
        assert responses[..page - 1] == responses;
        break;
      }
      var data := responses[page - 1];
      var request := RequestFor(url, address, apiKey, page);
      if data.status != StatusOk && data.message != NoTransactionsFound {
        StoppedAt(url, address, apiKey, responses, page - 1, txs, requests);
        requests := requests + [request];
        stop := ApiError(data.message);
        break;
      }
      var batch := Records(data);
      if |batch| == 0 {
        StoppedAt(url, address, apiKey, responses, page - 1, txs, requests);
        requests := requests + [request];
        stop := NoRecords;
        break;
      }
      if |batch| < PageSize {
        StoppedAt(url, address, apiKey, responses, page - 1, txs, requests);
        requests := requests + [request];
        txs := txs + batch;
        stop := ShortPage;
        break;
      }
      NextPage(url, address, apiKey, responses, page - 1, txs, requests);
      requests := requests + [request];
      txs := txs + batch;
      page := page + 1;
    }
  }

  /** The specification leaves no choice: the loop's outcome is determined by the responses. */
  lemma {:induction false} FetchSpecUnique(
    url: string, address: string, apiKey: string, responses: seq<Response>,
    txs1: seq<Transaction>, requests1: seq<Request>, stop1: Stop,
    txs2: seq<Transaction>, requests2: seq<Request>, stop2: Stop)
    requires FetchSpec(url, address, apiKey, responses, txs1, requests1, stop1)
    requires FetchSpec(url, address, apiKey, responses, txs2, requests2, stop2)
    ensures txs1 == txs2 && requests1 == requests2 && stop1 == stop2
  {
    assert |requests1| == |requests2|;
    assert requests1 == requests2;
  }

  /**
   * The loop walks the pages in order without repeating one: request i asks
   * the chain's explorer for page i + 1 of PageSize records, so no two requests
   * of a run are the same.
   */
  lemma {:induction false} PagesInOrder(
    url: string, address: string, apiKey: string, responses: seq<Response>,
    txs: seq<Transaction>, requests: seq<Request>, stop: Stop)
    requires FetchSpec(url, address, apiKey, responses, txs, requests, stop)
    ensures forall i | 0 <= i < |requests| ::
      requests[i].page == i + 1 && requests[i].offset == PageSize &&
      requests[i].url == url && requests[i].address == address && requests[i].apiKey == apiKey
    ensures forall i, j | 0 <= i < j < |requests| :: requests[i] != requests[j]
  {
    forall i, j | 0 <= i < j < |requests| ensures requests[i] != requests[j] {
      assert requests[i].page != requests[j].page;
    }
  }

  /**
   * Responses after the one that ended the loop are never consulted: the same
   * outcome holds whatever the explorer would have answered to further requests.
   */
  lemma {:induction false} LaterResponsesIgnored(
    url: string, address: string, apiKey: string, responses: seq<Response>,
    txs: seq<Transaction>, requests: seq<Request>, stop: Stop, later: seq<Response>)
    requires FetchSpec(url, address, apiKey, responses, txs, requests, stop)
    requires stop != ResponsesExhausted
    ensures FetchSpec(url, address, apiKey, responses[..|requests|] + later, txs, requests, stop)
  {
    var k := |requests|;
    var other := responses[..k] + later;
    assert other[..k] == responses[..k];
    forall i | 0 <= i < k ensures other[i] == responses[i] {
      assert other[i] == responses[..k][i];
    }
  }

  lemma {:induction false} TakenFromFullPages(rs: seq<Response>)
    requires forall i | 0 <= i < |rs| :: IsFullPage(rs[i])
    ensures |TakenFrom(rs)| >= |rs| * PageSize
  {
    if rs != [] {
      TakenFromFullPages(rs[..|rs| - 1]);
    }
  }

  lemma {:induction false} TakenFromExactPages(rs: seq<Response>)
    requires forall i | 0 <= i < |rs| :: IsFullPage(rs[i]) && |Records(rs[i])| == PageSize
    ensures |TakenFrom(rs)| == |rs| * PageSize
  {
    if rs != [] {
      TakenFromExactPages(rs[..|rs| - 1]);
    }
  }

  /**
   * The loop's request count is bounded by the data: every request before the
   * last brought a full page, so at most |txs| / PageSize + 1 requests are made.
   */
  lemma {:induction false} RequestsBounded(
    url: string, address: string, apiKey: string, responses: seq<Response>,
    txs: seq<Transaction>, requests: seq<Request>, stop: Stop)
    requires FetchSpec(url, address, apiKey, responses, txs, requests, stop)
    requires stop != ResponsesExhausted
    ensures (|requests| - 1) * PageSize <= |txs|
  {
    var k := |requests|;
    TakenStep(responses, k - 1);
    TakenFromFullPages(responses[..k - 1]);
  }

  /**
   * When the explorer never returns more than a page, the request count is
   * exactly |txs| / PageSize + 1: one request per full page and one more for
   * the page that ends the loop.
   */
  lemma {:induction false} RequestsExact(
    url: string, address: string, apiKey: string, responses: seq<Response>,
    txs: seq<Transaction>, requests: seq<Request>, stop: Stop)
    requires FetchSpec(url, address, apiKey, responses, txs, requests, stop)
    requires stop != ResponsesExhausted
    requires forall i | 0 <= i < |responses| :: |Records(responses[i])| <= PageSize
    ensures |requests| == |txs| / PageSize + 1
  {
    var k := |requests|;
    var head, last := TakenFrom(responses[..k - 1]), Taken(responses[k - 1]);
    assert |txs| == |head| + |last| by {
      TakenStep(responses, k - 1);
    }
    assert |head| == (k - 1) * PageSize by {
      TakenFromExactPages(responses[..k - 1]);
    }
    assert |last| < PageSize;
  }

  /**
   * A page that fails with a real error contributes nothing: the result is
   * exactly what the pages before it brought.
   */
  lemma {:induction false} ErrorKeepsAccumulated(
    url: string, address: string, apiKey: string, responses: seq<Response>,
    txs: seq<Transaction>, requests: seq<Request>, stop: Stop)
    requires FetchSpec(url, address, apiKey, responses, txs, requests, stop)
    requires stop.ApiError? || stop == NoRecords
    ensures txs == TakenFrom(responses[..|requests| - 1])
  {
    TakenStep(responses, |requests| - 1);
  }

  /** The records of a run of responses, ignoring error status. */
  function AllRecords(rs: seq<Response>): seq<Transaction>
  {
    if rs == [] then [] else AllRecords(rs[..|rs| - 1]) + Records(rs[|rs| - 1])
  }

  lemma {:induction false} TakenFromNoErrors(rs: seq<Response>)
    requires forall i | 0 <= i < |rs| :: !IsApiError(rs[i])
    ensures TakenFrom(rs) == AllRecords(rs)
  {
    if rs != [] {
      TakenFromNoErrors(rs[..|rs| - 1]);
    }
  }

  /**
   * Full pages followed by a short page: every response is requested, in page
   * order, and the result is all their records concatenated in order.
   */
  lemma {:induction false} ShortPageEndsFetch(
    url: string, address: string, apiKey: string, responses: seq<Response>,
    txs: seq<Transaction>, requests: seq<Request>, stop: Stop)
    requires |responses| > 0
    requires forall i | 0 <= i < |responses| - 1 :: IsFullPage(responses[i])
    requires !IsApiError(responses[|responses| - 1])
    requires 0 < |Records(responses[|responses| - 1])| < PageSize
    requires FetchSpec(url, address, apiKey, responses, txs, requests, stop)
    ensures stop == ShortPage && |requests| == |responses|
    ensures txs == AllRecords(responses)
  {
    assert |requests| == |responses|;
    assert responses[..|responses|] == responses;
    TakenFromNoErrors(responses);
  }

  /**
   * The explorer has no page cap: while it keeps answering with full pages the
   * loop keeps asking, so only running out of modelled responses ends it.
   */
  lemma {:induction false} FullPagesNeverStop(
    url: string, address: string, apiKey: string, responses: seq<Response>,
    txs: seq<Transaction>, requests: seq<Request>, stop: Stop)
    requires forall i | 0 <= i < |responses| :: IsFullPage(responses[i])
    requires FetchSpec(url, address, apiKey, responses, txs, requests, stop)
    ensures stop == ResponsesExhausted && |requests| == |responses|
    ensures |txs| >= |responses| * PageSize
  {
    assert stop == ResponsesExhausted;
    assert responses[..|responses|] == responses;
    TakenFromFullPages(responses);
  }

  /**
   * A short first page ends the fetch at once, even when the explorer has more
   * to give: one request, and only that page's records.
   */
  lemma {:induction false} ShortFirstPageStops(
    url: string, address: string, apiKey: string, first: Response, later: seq<Response>,
    txs: seq<Transaction>, requests: seq<Request>, stop: Stop)
    requires first.status == StatusOk && 0 < |Records(first)| < PageSize
    requires FetchSpec(url, address, apiKey, [first] + later, txs, requests, stop)
    ensures stop == ShortPage && |requests| == 1 && requests[0].page == 1
    ensures txs == Records(first)
  {
    var rs := [first] + later;
    assert rs[0] == first;
    assert |requests| == 1;
    assert rs[..1] == [first];
    assert [first][..0] == [];
    assert TakenFrom([first]) == TakenFrom([]) + Taken(first);
  }

  /**
   * The empty-history sentinel is not an error: a failure status with the
   * message "No transactions found" and no records ends the fetch normally.
   */
  lemma {:induction false} SentinelIsEndOfData(
    url: string, address: string, apiKey: string, first: Response, later: seq<Response>,
    txs: seq<Transaction>, requests: seq<Request>, stop: Stop)
    requires first.message == NoTransactionsFound && Records(first) == []
    requires FetchSpec(url, address, apiKey, [first] + later, txs, requests, stop)
    ensures stop == NoRecords && |requests| == 1 && txs == []
  {
    var rs := [first] + later;
    assert rs[0] == first;
    assert |requests| == 1;
    assert rs[..1] == [first];
    assert [first][..0] == [];
    assert TakenFrom([first]) == TakenFrom([]) + Taken(first);
  }
}
