/** The class RequestQueue (request_queue.h, request_queue.cpp, and the copy in
    main.cpp): it forwards queries to a SearchServer and keeps, for the last
    MIN_IN_DAY requests, whether each found nothing, together with a running
    count of those empty requests. */
module Requests {
  import opened Errors
  import opened Documents
  import opened Index
  import opened Server

  /** The window: one request a minute for a day. */
  const MIN_IN_DAY: nat := 1440

  /** One remembered request: its text and whether it found no document. */
  datatype QueryResult = QueryResult(query: string, isEmpty: bool)

  /** The record of a request that found `documentsFound` documents. */
  function MakeQueryResult(query: string, documentsFound: nat): (r: QueryResult)
    ensures r.query == query
    ensures r.isEmpty <==> documentsFound == 0
  {
    QueryResult(query, documentsFound == 0)
  }

  /** How many records found nothing. */
  function EmptyCount(records: seq<QueryResult>): (count: nat)
    ensures count <= |records|
  {
    if records == [] then 0
    else (if records[0].isEmpty then 1 else 0) + EmptyCount(records[1..])
  }

  lemma {:induction false} EmptyCountAppend(records: seq<QueryResult>, record: QueryResult)
    ensures EmptyCount(records + [record]) == EmptyCount(records) + (if record.isEmpty then 1 else 0)
    decreases |records|
  {
    if records == [] {
      assert [] + [record] == [record];
      assert [record][1..] == [];
    } else {
      assert (records + [record])[1..] == records[1..] + [record];
      EmptyCountAppend(records[1..], record);
    }
  }

  /** The records kept after one more request: when the window is full the
      oldest record leaves first. */
  function Window(records: seq<QueryResult>, record: QueryResult): (kept: seq<QueryResult>)
  {
    (if |records| == MIN_IN_DAY then records[1..] else records) + [record]
  }

  /** The window never outgrows a day and always keeps the newest records in
      their order of arrival. */
  lemma WindowKeepsLatest(records: seq<QueryResult>, record: QueryResult)
    requires |records| <= MIN_IN_DAY
    ensures |Window(records, record)| == if |records| < MIN_IN_DAY then |records| + 1 else MIN_IN_DAY
    ensures Window(records, record) == (records + [record])[|records| + 1 - |Window(records, record)|..]
  {
    if |records| == MIN_IN_DAY {
      assert (records + [record])[1..] == records[1..] + [record];
    } else {
      assert (records + [record])[0..] == records + [record];
    }
  }

  /** The count of empty records after one more request: one less if an empty
      record was evicted, one more if the new request found nothing. */
  lemma WindowEmptyCount(records: seq<QueryResult>, record: QueryResult)
    requires |records| <= MIN_IN_DAY
    ensures EmptyCount(Window(records, record))
         == EmptyCount(records)
          - (if |records| == MIN_IN_DAY && records[0].isEmpty then 1 else 0)
          + (if record.isEmpty then 1 else 0)
  {
    EmptyCountAppend(if |records| == MIN_IN_DAY then records[1..] else records, record);
  }

  /** The records kept after a whole history of requests, starting empty. */
  function Replay(history: seq<QueryResult>): (records: seq<QueryResult>)
    ensures |records| <= MIN_IN_DAY
  {
    if history == [] then []
    else
      var previous := Replay(history[..|history| - 1]);
      assert |previous| <= MIN_IN_DAY;
      WindowKeepsLatest(previous, history[|history| - 1]);
      Window(previous, history[|history| - 1])
  }

  /** Whatever the history, the queue holds exactly its last MIN_IN_DAY
      requests (all of them while there are fewer). */
  lemma {:induction false} ReplayIsLatestDay(history: seq<QueryResult>)
    ensures Replay(history) == if |history| <= MIN_IN_DAY then history else history[|history| - MIN_IN_DAY..]
  {
    if history != [] {
      var earlier := history[..|history| - 1];
      var record := history[|history| - 1];
      ReplayIsLatestDay(earlier);
      WindowKeepsLatest(Replay(earlier), record);
      assert history == earlier + [record];
      if |history| > MIN_IN_DAY {
        assert Replay(earlier) == earlier[|earlier| - MIN_IN_DAY..];
        assert Replay(earlier) + [record] == history[|history| - 1 - MIN_IN_DAY..];
      }
    }
  }

  class RequestQueue {
    const server: SearchServer
    var requests: seq<QueryResult>
    var noResultRequests: nat

    /** The counter is the number of empty records, and the window is at most
        a day long. */
    ghost predicate Valid()
      reads this
    {
      noResultRequests == EmptyCount(requests) && |requests| <= MIN_IN_DAY
    }

    constructor(server: SearchServer)
      ensures Valid()
      ensures this.server == server && requests == [] && noResultRequests == 0
    {
      this.server := server;
      requests := [];
      noResultRequests := 0;
    }

    /** The bookkeeping of AddFindRequest for a request that found
        `documentsFound` documents. */
    method RecordRequest(rawQuery: string, documentsFound: nat)
      requires Valid()
      modifies this
      ensures Valid()
      ensures requests == Window(old(requests), MakeQueryResult(rawQuery, documentsFound))
      ensures noResultRequests
           == old(noResultRequests)
            - (if |old(requests)| == MIN_IN_DAY && old(requests)[0].isEmpty then 1 else 0)
            + (if documentsFound == 0 then 1 else 0)
    {
      ghost var before := requests;
      WindowEmptyCount(before, MakeQueryResult(rawQuery, documentsFound));
      WindowKeepsLatest(before, MakeQueryResult(rawQuery, documentsFound));
      if |requests| == MIN_IN_DAY {
        if requests[0].isEmpty {
          noResultRequests := noResultRequests - 1;
        }
        requests := requests[1..];
      }
      requests := requests + [MakeQueryResult(rawQuery, documentsFound)];
      if documentsFound == 0 {
        noResultRequests := noResultRequests + 1;
      }
    }

    /** The predicate overload: the server's answer is returned unchanged and
        recorded; a query the server rejects is not recorded. */
    method AddFindRequest(rawQuery: string, accept: DocumentPredicate) returns (r: Result<seq<Document>>)
      requires Valid() && server.Valid()
      modifies this
      ensures r == TopDocuments(server.stopWords, server.State(), server.ln, rawQuery, accept)
      ensures Valid()
      ensures r.Err? ==> requests == old(requests) && noResultRequests == old(noResultRequests)
      ensures r.Ok? ==> requests == Window(old(requests), MakeQueryResult(rawQuery, |r.value|))
    {
      r := server.FindTopDocuments(rawQuery, accept);
      if r.Ok? {
        RecordRequest(rawQuery, |r.value|);
      }
    }

    /** The status overload: only the status of a document counts. */
    method AddFindRequestByStatus(rawQuery: string, status: DocumentStatus := Actual)
      returns (r: Result<seq<Document>>)
      requires Valid() && server.Valid()
      modifies this
      ensures r == TopDocuments(server.stopWords, server.State(), server.ln, rawQuery, StatusIs(status))
      ensures Valid()
      ensures r.Err? ==> requests == old(requests) && noResultRequests == old(noResultRequests)
      ensures r.Ok? ==> requests == Window(old(requests), MakeQueryResult(rawQuery, |r.value|))
    {
      r := AddFindRequest(rawQuery, StatusIs(status));
    }

    function GetNoResultRequests(): (count: nat)
      reads this
      requires Valid()
      ensures count == EmptyCount(requests)
      ensures count <= MIN_IN_DAY
    {
      noResultRequests
    }
  }

  /** The example of main.cpp: 1439 requests that find nothing, then three
      that find something (their result sizes are given). The counter reads
      1439 after the empty ones, still 1439 after the first non-empty one
      (the window just fills up), then 1438 and 1437 as the oldest empty
      records are evicted. */
  method DayWindowScenario(server: SearchServer, found1: nat, found2: nat, found3: nat)
    returns (afterEmpty: nat, afterFirst: nat, afterSecond: nat, afterThird: nat)
    requires found1 > 0 && found2 > 0 && found3 > 0
    ensures afterEmpty == 1439 && afterFirst == 1439 && afterSecond == 1438 && afterThird == 1437
  {
    var queue := new RequestQueue(server);
    var i := 0;
    while i < 1439
      invariant 0 <= i <= 1439
      invariant queue.Valid() && |queue.requests| == i
      invariant forall k :: 0 <= k < i ==> queue.requests[k].isEmpty
      invariant queue.noResultRequests == i
    {
      queue.RecordRequest("empty request", 0);
      i := i + 1;
    }
    afterEmpty := queue.GetNoResultRequests();
    queue.RecordRequest("curly dog", found1);
    afterFirst := queue.GetNoResultRequests();
    assert queue.requests[0].isEmpty && queue.requests[1].isEmpty;
    queue.RecordRequest("big collar", found2);
    afterSecond := queue.GetNoResultRequests();
    queue.RecordRequest("sparrow", found3);
    afterThird := queue.GetNoResultRequests();
  }
}
