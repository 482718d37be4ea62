# Search server and RLE decoder, modelled in Dafny

This project models the in-memory search engine of `search-server/` and the
run-length decoder of `RLE-decompressor/`.

**The search engine.** A `SearchServer` holds three things:
- a set of stop words;
- an inverted index, mapping word to (document id to term frequency);
- per-document data (average rating and status), plus the ids in order of
  addition.

`AddDocument` validates the id and the words before it changes anything. It
then adds each non-stop word's term frequency, `count / |words|`, to the index.

Queries are split into words. Each word is parsed as a plus word or, with a
leading `-`, a minus word; stop words are dropped. A document is found when
all of these hold:
- it contains a plus word;
- it passes the caller's predicate on (id, status, rating);
- it contains no minus word.

Nothing forces the plus and minus sets apart.

**Relevance.** A document's relevance is the sum, over the plus words it
contains, of term frequency × IDF, where IDF is the log of (document count /
documents holding the word). Relevance stays abstract: the logarithm is a
function parameter `ln` fixed when the server is built, and term frequencies
are exact rationals.

**Results.** `FindAllDocuments` returns the found documents in ascending id
order. `FindTopDocuments` sorts them by relevance, then rating, both
descending, and keeps at most `MAX_RESULT_DOCUMENT_COUNT` (5).
`MatchDocument` reports the plus words a document contains, or none when it
contains a minus word.

**RequestQueue.** It forwards queries to a server and remembers, for the last
1440 requests, whether each found nothing. Its counter always equals the
number of such empty records.

**Paginator.** It cuts a sequence into pages of `pageSize` items.

**DecodeRLE.** It reads blocks. Each block has a header byte: the low bit
says run or literal, and the upper seven bits hold the length minus one. A run
repeats one byte; a literal copies bytes.

Module layout, one module per component of the source:
- `Errors` — the exceptions, as `Result`/`Outcome` values.
- `Documents` — `document.h`.
- `StringOrder` — the `std::string` order that `std::set` iterates in.
- `StringProcessing` — `string_processing.cpp` / `.h`.
- `ReadInputFunctions` — `read_input_functions.cpp`.
- `Queries` — query parsing.
- `Ranking` — the sort comparator and truncation.
- `Index` — reference definitions of the server's state and of every query
  answer, on values.
- `Server` — class `SearchServer`, whose methods are proved against `Index`.
- `Requests` — class `RequestQueue` and the example of `main.cpp`.
- `Pagination` — `paginator.h`.
- `Arithmetic` — `Min` and the division facts that the paginator's page count needs.
- `Rle` — `decompressor.h`.

Exceptions become `Err`/`Fail` results, and an operation that fails changes
no state.

## Model

| member | source | states |
|---|---|---|
| StringProcessing.ValidWordCodes | search-server/string_processing.cpp:20-22 | IsValidWord: a word is valid iff none of its characters has a code from 0 to 31 |
| StringProcessing.ValidWordConcat | search-server/string_processing.cpp:20-22 | validity is per character: a concatenation is valid iff both parts are |
| StringOrder.Less | search-server/search_server.h:115-118 | the `std::string` order that the `std::set` of query words keeps: it never relates a string to itself, and a proper prefix comes before its extensions |
| StringOrder.LessTransitive | search-server/search_server.h:115-118 | the string order is transitive |
| StringOrder.LessTotal | search-server/search_server.h:115-118 | any two distinct strings are ordered one way or the other, so the set has one iteration order |
| StringProcessing.SplitBy | search-server/string_processing.cpp:24-42 | the character loop (word buffer, words vector) yields exactly `Split(text, separators)`, the maximal runs of non-separator characters in order |
| StringProcessing.SplitIntoWords | search-server/string_processing.cpp:24-42 | splitting on space and tab yields `Split(text, {' ', '\t'})` |
| StringProcessing.SplitWordsAreWords | search-server/string_processing.cpp:28-37 | no returned word is empty and no returned word holds a separator |
| StringProcessing.SplitConcat | search-server/string_processing.cpp:27-40 | the words concatenated are the text with every separator removed, in the original order |
| StringProcessing.SplitCountsRuns | search-server/string_processing.cpp:24-41 | the number of words is the number of maximal runs of non-separators |
| StringProcessing.SplitOfSeparatorsIsEmpty | search-server/string_processing.cpp:24-41 | an empty or all-separator text yields no word |
| StringProcessing.SomeWordInvalidIff | search-server/search_server.cpp:61-64 | some word holds a character of code 0..31 iff the text holds such a character that is not a separator |
| StringProcessing.MakeUniqueNonEmptyStrings | search-server/string_processing.h:21-34 | fails with the illegal-characters error iff some input string holds a character of code 0..31; otherwise the result is the set of non-empty inputs and never holds "" |
| StringProcessing.MakeUniqueNonEmptyStringsIdempotent | search-server/string_processing.h:21-34 | feeding the result back in (any order, any repetition) cannot fail and gives the same set |
| ReadInputFunctions.SplitIntoWords | search-server/read_input_functions.cpp:19-37 | splitting on spaces only yields `Split(text, {' '})` |
| ReadInputFunctions.SplitOnSpacesKeepsOtherCharacters | search-server/read_input_functions.cpp:23-30 | every non-space character of the text, tab included, lands inside some word, and no word holds a space |
| Queries.ParseQueryWord | search-server/search_server.h:99-113 | on success the token is the word with a leading '-' exactly when it is a minus word; the word is non-empty, does not start with '-', has no control character; is-stop iff the word is a stop word; a failure is an invalid-query-word error |
| Queries.ParseQueryWordFailsIff | search-server/search_server.h:99-113 | a token is refused iff it is empty, is "-", starts with "--", or holds a control character |
| Queries.ParseQuery | search-server/search_server.h:120-133 | the loop over the tokens computes the reference `QueryOf`: the first malformed token aborts, otherwise words are added one by one |
| Queries.ParseQueryFailsIff | search-server/search_server.h:120-133 | parsing fails iff some token is malformed |
| Queries.ParseQueryWords | search-server/search_server.h:120-133 | w is a plus word iff some token is w, w is not a stop word and does not start with '-'; w is a minus word iff some token is "-w" and w is not a stop word; duplicates collapse |
| Queries.PlusAndMinusMayOverlap | search-server/search_server.h:124-129 | for any valid word w, the query "w -w" puts w in both the plus and the minus set |
| Ranking.SortByRankCorrect | search-server/search_server.h:46-51 | the sort returns a permutation of its input that is sorted by the comparator |
| Ranking.SortedByRankOrders | search-server/search_server.h:46-51 | in a sorted sequence relevance never increases, and between equal relevances rating never increases |
| Ranking.PrecedesStrictWeakOrder | search-server/search_server.h:46-51 | the comparator (higher relevance first, then higher rating) is irreflexive and transitive, and two documents are incomparable iff they have equal relevance and equal rating: the strict weak ordering `std::sort` requires |
| Ranking.Truncate | search-server/search_server.h:53-55 | the resize keeps the first min(n, 5) documents, in order |
| Ranking.TopIsBestPrefix | search-server/search_server.h:53-55 | truncating any sorted permutation keeps min(n, 5) documents, all drawn from the input, still sorted, and no dropped document ranks ahead of a kept one |
| Ranking.TopOfRanking | search-server/search_server.h:43-57 | the same for the sort used by the model, with the order spelled out as relevance descending, then rating descending |
| Index.NonStopWordsMembers | search-server/search_server.cpp:59-70 | the words kept for a document are exactly its tokens that are not stop words |
| Index.TermFrequencyBounds | search-server/search_server.cpp:50-53 | the term frequency of a word of the document lies in (0, 1] |
| Index.WithDocumentEffect | search-server/search_server.cpp:50-53 | adding a fresh document: the postings of every other document are unchanged; the new id is posted under w iff w is one of its words, with frequency `count(w) / |words|`; a document with no words leaves the index unchanged |
| Index.AccumulatedAll | search-server/search_server.cpp:50-53 | adding `1/|words|` once per occurrence, word after word, ends in the reference index `WithDocument` |
| Index.AddKeepsConsistent | search-server/search_server.cpp:40-57 | a successful add keeps the server invariant: ids distinct, non-negative, in order of addition and matching the document data; postings non-empty, never under a stop word, naming stored documents, with frequencies in (0, 1] |
| Index.InverseDocumentFrequency | search-server/search_server.cpp:36-38 | the IDF is the log of the ratio of the document count to the word's document count; a word held by every document gets `ln(1)` |
| Index.RarerWordsWeighMore | search-server/search_server.cpp:36-38 | for an increasing logarithm, a word held by fewer documents has an IDF at least that of a word held by more |
| Index.DocumentFrequencyBounds | search-server/search_server.cpp:36-38 | for an indexed word, 1 ≤ documents holding it ≤ document count, so the ratio whose log is the IDF is at least 1 |
| Index.TruncDiv | search-server/search_server.cpp:33 | C++ `int / int`: the remainder is within the divisor and has the sign of the dividend (truncation toward zero) |
| Index.AverageRating | search-server/search_server.cpp:28-34 | 0 for no ratings; otherwise the sum divided by the count, truncated toward zero |
| Index.AverageRatingExamples | search-server/main.cpp:69-73 | the example ratings {7,2,7}, {1,2,8}, {1,1,1} average to 5, 3, 1, and {-3,-4} averages to -3 (toward zero) |
| Index.RelevanceRemove | search-server/search_server.h:138-150 | relevance is the sum of the plus words' contributions, whatever order the words are taken in |
| Index.RelevanceOfAbsent | search-server/search_server.h:138-149 | a document containing none of the plus words gets no relevance |
| Index.SortedIdsCorrect | search-server/search_server.h:161-165 | the ids of the result, read off the map, are strictly ascending and are exactly the found ids |
| Index.AllFoundCharacterised | search-server/search_server.h:136-166 | a document is returned iff it contains a plus word, passes the predicate and contains no minus word; ids strictly ascending; each item's rating is the stored average rating and its relevance the sum of contributions |
| Index.AllFoundMembers | search-server/search_server.h:136-159 | a document is returned iff it contains a plus word, passes the predicate and contains no minus word (the predicate plays no part in the exclusion) |
| Index.ScoresAreFound | search-server/search_server.h:137-159 | after the plus loop and the minus loop, the relevance map's keys are exactly the found documents and its values their relevance |
| Index.ScoringVisitPassing | search-server/search_server.h:146-147 | one posting whose document passes the predicate: adding tf × idf to its entry (from 0 if absent) keeps the partial-sum invariant |
| Index.ScoringVisitFailing | search-server/search_server.h:146 | one posting whose document fails the predicate: leaving the map alone keeps the partial-sum invariant |
| Index.ScoringFinish | search-server/search_server.h:144-149 | once all postings of a word are visited, the map scores the plus words seen so far plus this one |
| Index.ExclusionFinish | search-server/search_server.h:156-158 | once all postings of a minus word are erased, no document holding it is left |
| Index.MatchedIffFound | search-server/search_server.cpp:78-101 | for a document passing the predicate, MatchDocument reports some word iff FindAllDocuments returns the document |
| Server.StatusIs | search-server/search_server.h:36-40 | the predicate of the status overloads accepts a document iff its status is the sought one, whatever its id and rating |
| Server.SearchServer.constructor | search-server/search_server.h:24-25 | a server over valid stop words starts empty and satisfies the invariant |
| Server.SearchServer.ParseStopWords | search-server/search_server.h:77-89 | fails iff some non-empty string holds a control character, naming the first such string; otherwise the set of non-empty strings |
| Server.SearchServer.GetDocumentCount | search-server/search_server.cpp:12-14 | the number of documents, which is also the number of ids added |
| Server.SearchServer.GetDocumentId | search-server/search_server.cpp:16-18 | the n-th added id, or the out-of-range error when n is at least the count |
| Server.SearchServer.ParseDocument | search-server/search_server.cpp:59-70 | fails iff some token holds a control character, naming the first; otherwise the tokens that are not stop words, in order |
| Server.SearchServer.AddDocument | search-server/search_server.cpp:40-57 | a negative or existing id fails, and so does a control character in the text; on failure nothing changes; on success the document data holds the average rating and status, the id is appended once, the index is `WithDocument` of the old one, and the invariant holds |
| Server.SearchServer.AccumulateFrequencies | search-server/search_server.cpp:50-53 | the `+= inv_word_count` loop turns the index into `WithDocument(old index, id, words)` |
| Server.SearchServer.FindAllDocuments | search-server/search_server.h:136-166 | returns exactly the reference result `AllFound` (see the Index lemmas) |
| Server.SearchServer.ScorePlusWords | search-server/search_server.h:138-150 | the plus loop builds a map scoring every plus word |
| Server.SearchServer.ScoreWord | search-server/search_server.h:139-149 | one plus word: an unindexed word adds nothing; otherwise its postings are scored |
| Server.ScorePostings | search-server/search_server.h:144-149 | the inner loop over one word's postings adds tf × idf to every passing document |
| Server.SearchServer.EraseMinusWords | search-server/search_server.h:152-159 | the minus loop erases every document holding a minus word and nothing else |
| Server.SearchServer.FindTopDocuments | search-server/search_server.h:43-57 | returns the reference `TopDocuments`: the parse error, or the found documents sorted and cut to 5 (see the Ranking lemmas) |
| Server.SearchServer.FindTopDocumentsByStatus | search-server/search_server.cpp:72-76 | the status overload, Actual by default, is the predicate overload with `StatusIs(status)` |
| Server.SearchServer.MatchDocument | search-server/search_server.cpp:78-101 | a malformed query fails first, then an unknown id gives out-of-range; otherwise the stored status and the matched words strictly ascending, exactly the plus words the document contains, or none when it contains a minus word |
| Server.SearchServer.MatchPlusWords | search-server/search_server.cpp:82-89 | the plus words the document contains, in ascending order without duplicates |
| Requests.MakeQueryResult | search-server/request_queue.h:42-49 | a record is empty iff the request found no document |
| Requests.WindowKeepsLatest | search-server/request_queue.h:25-32 | after a request the queue holds min(n + 1, 1440) records, the newest ones in arrival order |
| Requests.WindowEmptyCount | search-server/request_queue.h:25-36 | the number of empty records drops by one iff the window was full and the evicted record was empty, and rises by one iff the new request found nothing |
| Requests.Replay | search-server/request_queue.h:25-32 | whatever the history, the queue never holds more than 1440 records |
| Requests.ReplayIsLatestDay | search-server/request_queue.h:21-39 | after any history of requests the queue holds exactly the last 1440 of them (all of them while fewer) |
| Requests.RequestQueue.constructor | search-server/request_queue.h:9 | an empty queue with counter 0 |
| Requests.RequestQueue.RecordRequest | search-server/request_queue.h:25-36 | pop when full, push one record, update the counter; the counter stays the number of empty records and the size at most 1440 |
| Requests.RequestQueue.AddFindRequest | search-server/request_queue.h:20-39 | returns exactly the server's `FindTopDocuments` result and records it; a query the server rejects records nothing |
| Requests.RequestQueue.AddFindRequestByStatus | search-server/request_queue.cpp:7-11 | the status overload, Actual by default, records one request through the predicate overload with `StatusIs(status)` |
| Requests.RequestQueue.GetNoResultRequests | search-server/request_queue.cpp:3-5 | the counter, which is the number of empty records of the last day (at most 1440) |
| Requests.DayWindowScenario | search-server/main.cpp:74-84 | 1439 empty requests give 1439; a non-empty 1440th evicts nothing (1439); the next two evict one empty record each (1438, 1437) |
| Pagination.PagesFromSizes | search-server/paginator.h:13-18 | every page holds 1 to pageSize items, every page but the last exactly pageSize |
| Pagination.PagesFromTile | search-server/paginator.h:13-18 | the pages follow each other from the first item to the last without gap or overlap |
| Pagination.TilesFlatten | search-server/paginator.h:15-18 | pages that tile a range, read in order, give back that range's items |
| Pagination.PagesFromCount | search-server/paginator.h:12-19 | the number of pages is ceil(n / pageSize) |
| Pagination.Paginator.constructor | search-server/paginator.h:11-20 | the `while (docs_left)` loop builds exactly the reference pages |
| Pagination.Paginator.Size | search-server/paginator.h:25 | ceil(n / pageSize) pages, 0 iff there are no items |
| Pagination.Paginator.Empty | search-server/paginator.h:24 | no pages iff no items |
| Pagination.Paginate | search-server/paginator.h:46-49 | a paginator over the whole container whose pages, read in order, are the container, each of 1 to pageSize items, all but the last full |
| Rle.BlockLength | RLE-decompressor/decompressor.h:24 | a block is 1 to 128 bytes long |
| Rle.HeaderTypeBit | RLE-decompressor/decompressor.h:23 | the run test is the header's low bit |
| Rle.DecodeStep | RLE-decompressor/decompressor.h:18-31 | one block read at a position: a run writes the following byte `length` times (0xFF when it is missing), a literal copies up to `length` following bytes; decoding then goes on after the block, or stops at a truncated one |
| Rle.DecodeBlocks | RLE-decompressor/decompressor.h:16-32 | the do-while loop writes exactly the reference `Decode` of the input |
| Rle.DecodeRLE | RLE-decompressor/decompressor.h:6-35 | false and nothing written when the source cannot be opened; otherwise true with the decoded bytes written |
| Rle.HeaderFields | RLE-decompressor/decompressor.h:23-24 | a header built from a block's type and length reads back as that type and length |
| Rle.DecodeBlock | RLE-decompressor/decompressor.h:23-31 | an encoded block decodes to what it stands for, whatever follows it |
| Rle.DecodeEncode | RLE-decompressor/decompressor.h:16-32 | round trip: decoding the encoding of well-formed blocks gives the in-order concatenation of their contents |
| Rle.DecodedLength | RLE-decompressor/decompressor.h:16-32 | for well-formed input the output length is the sum of the block lengths |

## Left out

- Floating point. Relevance and TF are exact reals, and `std::log` is the parameter `ln`. The `EPSILON` comparator is replaced by exact comparison of relevances. Double rounding in the accumulation of `1.0 / words.size()` is not modelled.
- Ranking.SortByRankCorrect: `std::sort` is stood in for by an insertion sort. The tie order is open only in Ranking.TopIsBestPrefix, which holds for any sorted permutation. Server.SearchServer.FindTopDocuments and Requests.RequestQueue.AddFindRequest return `TopDocuments`, which fixes the insertion sort's order among documents of equal relevance and rating. That order is one that `std::sort` may produce, but not the only one. A fact about the model's tie order is therefore not a fact about the source.
- Iteration order. The source walks `std::set` and `std::map` in ascending order. The model's plus, minus and postings loops take the elements in any order. Exact sums make the order irrelevant. The result list is still built in ascending id order, and `MatchDocument` in ascending word order.
- Integer widths. The rating sum is an unbounded `int`, so the overflow of `accumulate` is not modelled. `uint` arguments and counters are `nat`; the request counter never falls below 0 (see `RequestQueue.Valid`).
- A document whose words are all stop words. The source computes `1.0 / 0` but never uses it; the model uses 0.0 there. The document is accepted with no postings, as in the source.
- `GetStopWords` is a plain accessor; the model exposes `stopWords` as a `const` field instead.
- `IsStopWord` is membership in that field, written inline. `ComputeWordInverseDocumentFreq` is the function `Index.InverseDocumentFrequency`.
- The two `SearchServer` constructors are `ParseStopWords` (after `SplitIntoWords` for the string form) followed by `Server.SearchServer.constructor` on the parsed set.
- `SplitIntoWordsNoStop` and the free `IsStopWord(word, server)` are declared without bodies in `string_processing.h`, so there is nothing to model.
- Duplicate definitions are modelled once. This covers `IsValidWord` in `search_server.cpp` and `string_processing.cpp`, `ParseQuery`, `ParseQueryWord` and the status `FindTopDocuments` in `search_server.h`/`.cpp`, `AddFindRequest(status)` in both `request_queue` files, and the copy of `RequestQueue` in `main.cpp`. The table cites one copy each.
- Helper methods. The loops of `AddDocument`, `FindAllDocuments` and `MatchDocument` are split into helper methods: `AccumulateFrequencies`, `ScorePlusWords`, `ScoreWord`, `ScorePostings`, `EraseMinusWords` and `MatchPlusWords`. The loops themselves are unchanged.
- Requests.DayWindowScenario: the sizes of the three non-empty results are parameters; they are not derived from the five example documents of `main`. The 1439 empty requests are recorded directly.
- Strings. `std::string` holds bytes; the model's `string` holds Unicode characters. Nothing modelled depends on the difference. Splitting tests only ' ' and '\t', and validity tests codes 0 to 31. A byte of 128 or more is a negative `char`, so it fails the source's `c >= '\0'` test and counts as valid, just as a character above 127 does in the model. The string order compares codes, as byte comparison does for UTF-8.
- Console input (`ReadLine`, `ReadLineWithNumber`) is not modelled.
- Stream output is not modelled: `Document::operator<<`, `IteratorRange::operator<<` and the final print of `main`.
- Paginator iterators. The begin/end iterator accessors are not modelled; the pages are the field `pages`, given as index ranges into the items. A page size of 0 with items left never terminates in the source, so the constructor requires a positive page size unless there are no items.
- RLE file streams. The source file is its content, or `None` when it cannot be opened. A destination file that cannot be opened is not modelled.
- RLE bytes. They are a `byte` newtype, and the header's `& 1` / `>> 1` are written `% 2` / `/ 2`. `Rle.HeaderTypeBit` proves the first equal to the bit test. The equality of `>> 1` and `/ 2` on an unsigned byte is not proved, because the solver's bit-vector-to-integer conversion makes that proof unstable.
- RLE truncated run block (header as the last byte): it writes `length` copies of 0xFF, because `get()` at end of input yields -1. This is modelled as the source does it.
- `log_duration.h` (wall-clock timing) is not part of this model.
- `preprocessor/main.cpp`, `print-directory/main.cpp` and `directory tree/main.cpp` are filesystem tools and are not part of this model.
