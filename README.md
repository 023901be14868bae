# Multi-chain transaction fetcher — a Dafny model

`fetcher.py` is a command-line tool that downloads the full transaction
history of one contract address from several blockchains and writes one CSV
file per chain. EVM chains (Ethereum, Polygon, BSC, Base, Avalanche) are read
from their block-explorer API with page-numbered requests. Solana is read from
a JSON-RPC node with signature cursors. API keys and the Solana RPC URL are
kept in a local JSON configuration. A value that is missing is asked for once
and then remembered.

This project models the core of that tool:

- `chains.dfy` (module `Chains`) is the chain table. It gives each chain its
  name, its explorer URL (none for Solana) and the configuration key of its
  credential, and it looks chain names up. `Name` gives the six keys of
  `CHAIN_CONFIG` and `EnvKey` their `env_key` entries (`fetcher.py:18-43`).
- `text.dfy` (module `Text`) holds the string operations that chain selection
  uses: ASCII lower-casing, splitting on a separator character the way
  Python's `str.split(',')` does, and stripping Python white space.
- `selection.dfy` (module `Selection`) is the chain-selection loop of `main`.
  The input line is lower-cased and split on commas. Each entry is stripped
  and looked up. Unknown entries are skipped with a warning; known ones are
  processed in input order, duplicates included.
- `credentials.dfy` (module `Credentials`) is the configuration store, a
  class whose map is updated in place. It resolves a chain's credential:
  a stored non-empty value is reused, and anything else is replaced by the
  value the user supplies. The Solana RPC URL is resolved the same way.
- `evm_fetcher.dfy` (module `EvmFetcher`) is offset pagination against an
  explorer. It asks for pages 1, 2, … of 10000 records and stops in four cases:
  - on an error status, unless the message is the "No transactions found"
    sentinel;
  - on an empty page;
  - after a short page;
  - for the model only, when the modelled responses run out.
- `solana_fetcher.dfy` (module `SolanaFetcher`) is cursor pagination against
  an RPC node. It asks for batches of at most 1000 signatures, each one
  `before` the last signature of the previous batch. It stops only at an
  empty batch, or when the modelled responses run out.

The network is modelled as a finite sequence of responses: the n-th request
made receives the n-th response. Each fetcher is a method with the source's
`while True` loop. Each returns three things:

- the records it accumulated;
- the requests it sent;
- why it stopped.

Each fetcher is proved against a declarative `FetchSpec` predicate that
describes the whole run request by request. `FetchSpec` is built from plain
definitions:

- `RequestFor` gives the request for a page number or a cursor;
- `EvmFetcher.Taken` gives what one explorer answer adds: nothing for an
  error, its records otherwise;
- `StopAt` gives why a page that is not full ends the loop.

The properties the tool relies on are lemmas about any run that satisfies `FetchSpec`:

- the outcome is determined by the responses;
- responses after the final one are never read;
- the request count is bounded by the data;
- an error keeps what was already fetched;
- the empty-history sentinel is the end of data, not an error;
- there is no page cap.

Three behaviours of `fetcher.py` are easy to misread:

- A credential is asked for again when the stored value is empty, not only
  when it is absent. Both `fetcher.py:72` and `fetcher.py:179` test for a
  falsy value.
- Selection ignores case, because the whole line is lower-cased before it
  is split (`fetcher.py:168`).
- Solana pagination makes at most |txs| + 1 calls (`CallsBounded`). The
  EVM loop's bound of |txs| / 10000 + 1 requests (`RequestsExact`) has no
  Solana counterpart |txs| / 1000 + 1, because a short batch does not end
  the loop. A batch of 1000, then a batch of 1, then an empty batch take
  three calls for 1001 signatures (`FullThenSingleBatch`).

## Model

| member | source | states |
|---|---|---|
| Chains.Explorer | fetcher.py:18-43 | A chain has no explorer URL exactly when it is Solana; every EVM chain has one. |
| Chains.Lookup | fetcher.py:172 | A name that is found in the chain table is exactly that chain's key. |
| Chains.LookupName | fetcher.py:18-43 | Every chain's own key finds that chain. |
| Chains.LookupExact | fetcher.py:172 | A string finds chain c if and only if it equals c's key; membership in the table is exact string equality. |
| Chains.EnvKeyInjective | fetcher.py:18-43 | Two chains share a credential key only if they are the same chain, so one chain's credential never overwrites another's. |
| Text.Lower | fetcher.py:168 | Lower-casing keeps the length, leaves no upper-case letter, maps each upper-case letter to its own lower-case letter, and leaves every other character unchanged. |
| Text.LowerIdempotent | fetcher.py:168 | Lower-casing twice is lower-casing once. |
| Text.Split | fetcher.py:168 | Splitting on ',' gives at least one piece, no piece contains ',', and joining the pieces with ',' gives back the line. |
| Text.SplitJoin | fetcher.py:168 | Splitting the join of comma-free pieces gives exactly those pieces back, empty pieces included. |
| Text.SplitAtSeparator | fetcher.py:168 | A leading separator yields an empty first piece. |
| Text.SplitPrefix | fetcher.py:168 | A comma-free prefix joins the first piece of the rest. |
| Text.LeadingSpace | fetcher.py:171 | The leading run of white space is all white space and is followed by a non-space or the end. |
| Text.TrailingStart | fetcher.py:171 | The trailing run of white space is all white space and is preceded by a non-space or the start. |
| Text.Strip | fetcher.py:171 | The stripped string starts and ends with a non-space; it sits in the input between a leading and a trailing part, both all white space. |
| Text.StripPadding | fetcher.py:171 | Stripping white-space padding from an unpadded core gives back exactly that core. |
| Text.StripUnpadded | fetcher.py:171 | Stripping a string without surrounding white space leaves it unchanged. |
| Text.StripIdempotent | fetcher.py:171 | Stripping twice is stripping once. |
| Text.LeadingAllSpace | fetcher.py:171 | An all-space string is entirely leading white space. |
| Text.LeadingStopsAt | fetcher.py:171 | Leading white space ends at the first non-space character. |
| Text.TrailingStopsAt | fetcher.py:171 | Trailing white space starts after the last non-space character. |
| Selection.Pieces | fetcher.py:168 | The lower-cased line splits into at least one piece, no piece contains a comma, and the pieces rejoined with ',' are the lower-cased line. |
| Selection.Classify | fetcher.py:171-172 | An entry is known exactly when its stripped text is in the chain table; an unknown entry carries its stripped text. |
| Selection.Entries | fetcher.py:170-172 | There is one entry per piece, in order. Entry k is chain c if and only if piece k, stripped, is c's name. Entry k is unknown if and only if its stripped piece is not in the chain table. |
| Selection.ClassifyExact | fetcher.py:171-172 | A piece is classified as chain c if and only if its stripped text is c's name. |
| Selection.SelectChains | fetcher.py:168-174 | The loop processes the known entries and reports the unknown ones, each in input order. Together they account for every piece. A chain is processed if and only if some stripped piece is its name. |
| Selection.SelectionStep | fetcher.py:170-174 | One more entry extends either the processed list or the skipped list, by that entry alone. |
| Selection.SelectionFacts | fetcher.py:170-174 | Processed plus skipped equals the number of pieces; a chain is processed if and only if some stripped piece is its name. |
| Selection.SelectionCount | fetcher.py:170-174 | Every entry is either processed or skipped, never both. |
| Selection.KnownChainsMembership | fetcher.py:172-174 | A chain is processed exactly when it is one of the classified entries. |
| Selection.PiecesMembership | fetcher.py:171-172 | A chain is processed exactly when some stripped piece equals its name. |
| Selection.SelectionAppend | fetcher.py:170-174 | The selection of two lists of entries, one after the other, is the two selections one after the other: no entry affects another. |
| Selection.KnownAppend | fetcher.py:170-174 | The processed chains of a concatenation are those of each part, in order. |
| Selection.UnknownAppend | fetcher.py:170-174 | The skipped names of a concatenation are those of each part, in order. |
| Selection.UnknownEntryIsSkipped | fetcher.py:172-174 | An unknown entry is only reported: the chains around it are processed as if it were absent. |
| Selection.ClassifyName | fetcher.py:171-172 | Each chain's own name selects that chain. |
| Selection.SelectionIgnoresCase | fetcher.py:168-172 | A line that lower-cases to a chain's name, in any mix of cases, selects exactly that chain and skips nothing. |
| Selection.MixedCaseEthereum | fetcher.py:168-172 | The line "EtHeReUm" selects Ethereum. |
| Selection.ClassifyPadded | fetcher.py:171-172 | White space around a chain's name does not change the selection. |
| Selection.TwoEntries | fetcher.py:168 | A two-entry line is classified entry by entry after lower-casing. |
| Selection.SelectTwo | fetcher.py:170-174 | With two entries, the processed and skipped lists are those of each entry, in order. |
| Selection.UnknownChainIsUnknown | fetcher.py:172 | "unknownchain" is not a chain. |
| Selection.EthereumAndUnknown | fetcher.py:168-174 | The line "ethereum,unknownchain" processes Ethereum and skips "unknownchain". |
| Credentials.ConfigStore.constructor | fetcher.py:59-63 | The store starts as the loaded configuration. |
| Credentials.ConfigStore.GetApiKey | fetcher.py:69-76 | The key returned is the one stored under the chain's credential key. A stored non-empty key is reused and nothing changes. Otherwise the supplied value is stored and returned. No other entry changes. |
| Credentials.ConfigStore.ResolveRpcUrl | fetcher.py:178-182 | The RPC URL is the one stored under "SOLANA_RPC_URL". A stored non-empty URL is reused unchanged; otherwise the supplied URL is stored and returned. |
| Credentials.ResolveTwice | fetcher.py:69-76 | Once the first resolution gives a non-empty key, stored before or just supplied, the second returns that key. The store then holds exactly that key under the chain's credential name, and nothing else changes. A key stored beforehand leaves the configuration untouched. |
| Credentials.ResolveTwoChains | fetcher.py:176-186 | Resolving two different chains keeps both keys, each under its own name. |
| EvmFetcher.StopAt | fetcher.py:98-106 | A response that is not a full page ends the loop. The reason is the error when the status is not "1" and the message is not the sentinel (the error message is kept); no records when the result is empty; a short page when 0 < records < 10000. |
| EvmFetcher.TakenStep | fetcher.py:104 | Accumulation is concatenation, in page order. |
| EvmFetcher.StoppedAt | fetcher.py:98-106 | A run that reaches a non-full page satisfies the fetch specification. |
| EvmFetcher.NextPage | fetcher.py:104-107 | A full page is appended and the next page number is requested. |
| EvmFetcher.FetchEvmTransactions | fetcher.py:78-110 | Pages 1, 2, … are requested in order, every page before the last was full, and the result is the records of those pages concatenated in order. The stop reason is that of the last page, or the responses ran out after only full pages. |
| EvmFetcher.PagesInOrder | fetcher.py:81-107 | In a run, request i asks the chain's explorer for page i + 1 of 10000 records with the address and the API key, so no page is requested twice. |
| EvmFetcher.FetchSpecUnique | fetcher.py:84-107 | The outcome (records, requests, stop reason) is determined by the responses. |
| EvmFetcher.LaterResponsesIgnored | fetcher.py:98-106 | Once the loop stops, what the explorer would answer to further pages does not matter. |
| EvmFetcher.TakenFromFullPages | fetcher.py:104-105 | k full pages yield at least k·10000 records. |
| EvmFetcher.TakenFromExactPages | fetcher.py:104-105 | k pages of exactly 10000 records yield exactly k·10000 records. |
| EvmFetcher.RequestsBounded | fetcher.py:81-82 | A finished fetch made at most |txs|/10000 + 1 requests: (requests − 1)·10000 ≤ |txs|. |
| EvmFetcher.RequestsExact | fetcher.py:105-107 | When no page exceeds 10000 records, a finished fetch made exactly |txs| div 10000 + 1 requests. |
| EvmFetcher.ErrorKeepsAccumulated | fetcher.py:98-103 | An API error or an empty page adds nothing: the result is what the earlier pages brought. |
| EvmFetcher.TakenFromNoErrors | fetcher.py:101-104 | Without error responses, the accumulated records are all records in order. |
| EvmFetcher.ShortPageEndsFetch | fetcher.py:105-106 | Full pages then a short page: every page is requested, and the result is all records in order, ending on a short page. |
| EvmFetcher.FullPagesNeverStop | fetcher.py:84-107 | There is no page cap: while full pages keep coming, the loop keeps requesting. |
| EvmFetcher.ShortFirstPageStops | fetcher.py:105-106 | A short first page ends the fetch after one request (page 1), whatever else the explorer holds. |
| EvmFetcher.SentinelIsEndOfData | fetcher.py:98-103 | The "No transactions found" message with no records is the normal end of data: one request, no records, no error. |
| SolanaFetcher.Cursor | fetcher.py:115-130 | The first request has no cursor; every later one carries the last signature of the previous batch. |
| SolanaFetcher.CursorsFollowBatches | fetcher.py:115-130 | In any run the first call has no cursor, and every later call carries the last signature of the previous batch, which was non-empty. |
| SolanaFetcher.BatchesStep | fetcher.py:129 | Accumulation is concatenation, in batch order. |
| SolanaFetcher.StoppedAt | fetcher.py:126-128 | A run that reaches an empty batch satisfies the fetch specification. |
| SolanaFetcher.NextBatch | fetcher.py:129-130 | A non-empty batch is appended and its last signature becomes the cursor. |
| SolanaFetcher.FetchSolanaTransactions | fetcher.py:112-133 | Each request carries the previous batch's last signature as cursor, every batch before the last was non-empty, and the result is all batches concatenated in order. The fetch ends on an empty batch or when the responses run out. |
| SolanaFetcher.FetchSpecUnique | fetcher.py:117-131 | The outcome is determined by the responses. |
| SolanaFetcher.LaterResponsesIgnored | fetcher.py:126-128 | After the empty batch, nothing further is read. |
| SolanaFetcher.DrainsUntilEmpty | fetcher.py:117-131 | Non-empty batches then an empty one: every batch is requested and the result is all of them in order. |
| SolanaFetcher.ShortBatchContinues | fetcher.py:126-130 | A batch shorter than the limit does not end the fetch: the next request carries its last signature as cursor. |
| SolanaFetcher.FullThenSingleBatch | fetcher.py:116-130 | A batch of 1000, a batch of one and an empty batch take three calls for 1001 signatures, one more than |txs| / 1000 + 1. |
| SolanaFetcher.BatchesLength | fetcher.py:129 | k non-empty batches yield at least k signatures. |
| SolanaFetcher.BatchesCapped | fetcher.py:116-129 | k batches of at most 1000 signatures yield at most k·1000 signatures. |
| SolanaFetcher.CallsBounded | fetcher.py:117-131 | A finished fetch made at most one request more than the signatures it returned. When no batch exceeds 1000, it returned at most 1000 signatures per request before the last. |

## Left out

- HTTP and JSON decoding are not modelled. Each request's answer is the next
  element of a finite response sequence. A missing `result` field is
  modelled as an absent result and treated as empty, as `data.get` does.
- `ResponsesExhausted` and `RpcExhausted` do not exist in the source. They
  say "the source would send another request", which the model cannot
  answer. Neither loop has a page cap.
- Malformed answers are not modelled. Records are typed values and `result`
  is either a list or absent. The source would behave as follows:
  - a response without `status` raises KeyError (`fetcher.py:98`);
  - a response without `message` raises KeyError only when its status is
    not "1", because the test at `fetcher.py:98` short-circuits;
  - the last record of a Solana batch without a `signature` field raises
    KeyError (`fetcher.py:130`); an earlier record without one is
    accumulated as it is;
  - an EVM `result` that is a non-empty string passes the test at
    `fetcher.py:98` only with status "1" or the "No transactions found"
    message. It is then added to the accumulator character by character
    (`fetcher.py:104`). With any other failure status the loop stops at
    `fetcher.py:100` first;
  - a Solana `result` that is a non-empty string raises TypeError
    (`fetcher.py:130`). An empty string is falsy and ends the loop at
    `fetcher.py:127-128`.
- The exception handler around each chain (`fetcher.py:176-189`) is not
  modelled. Neither is the dispatch from the selected chains to the
  fetchers and to `save_to_csv`. `Selection.SelectChains` returns the chains
  in the order they would be processed.
- The two `time.sleep(0.2)` pauses and all logging are left out. They have no
  effect on results.
- Three parts of the tool are left out: the virtual-environment bootstrap
  (`fetcher.py:47-57`), CSV writing and timestamp formatting
  (`fetcher.py:135-161`).
- The configuration store is not tied to the JSON file. `save_config`, the
  file read in `load_or_create_config`, and the prompts (`getpass`, `input`)
  are left out. The value a prompt would return is a parameter (`supplied`,
  the contract address, the chain line).
- Configuration values are modelled as strings. A JSON `null`, number or
  other non-string value in the file is not modelled.
- Text.Lower: only ASCII letters are lower-cased. Python's full Unicode case
  mapping is not modelled. This cannot change which chains are selected,
  because no non-ASCII character lower-cases to a letter of a chain name.
  The characters that lower-case into ASCII are U+212A (Kelvin sign), which
  gives 'k', and U+0130, which gives 'i' plus a combining dot. No chain name
  contains 'k' or 'i'. Only the text of skipped entries can differ.
- EvmFetcher.FetchEvmTransactions: requires an EVM chain. The source's
  explorer lookup would give `None` for Solana, and `main` never calls it
  for Solana (`fetcher.py:177-186`).
