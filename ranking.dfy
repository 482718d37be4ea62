/** Ordering and truncation of FindTopDocuments (search_server.h). */
module Ranking {
  import opened Documents

  const MAX_RESULT_DOCUMENT_COUNT: nat := 5

  /** The comparator handed to std::sort: higher relevance first and, between
      equal relevances, higher rating first. Relevances are compared exactly;
      the EPSILON tolerance of the source is not modelled. */
  predicate Precedes(lhs: Document, rhs: Document)
  {
    if lhs.relevance == rhs.relevance then lhs.rating > rhs.rating else lhs.relevance > rhs.relevance
  }

  /** The comparator is a strict weak ordering, as std::sort requires of it:
      irreflexive and transitive, and two documents neither of which precedes
      the other are exactly those of equal relevance and equal rating, so
      that "incomparable" is an equivalence. */
  lemma PrecedesStrictWeakOrder(a: Document, b: Document, c: Document)
    ensures !Precedes(a, a)
    ensures Precedes(a, b) && Precedes(b, c) ==> Precedes(a, c)
    ensures !Precedes(a, b) && !Precedes(b, a) <==> a.relevance == b.relevance && a.rating == b.rating
  {
  }

  /** What std::sort promises: no element precedes an element before it. */
  ghost predicate SortedByRank(docs: seq<Document>)
  {
    forall i, j :: 0 <= i < j < |docs| ==> !Precedes(docs[j], docs[i])
  }

  function InsertByRank(doc: Document, docs: seq<Document>): (inserted: seq<Document>)
  {
    if docs == [] || !Precedes(docs[0], doc) then [doc] + docs
    else [docs[0]] + InsertByRank(doc, docs[1..])
  }

  /** Stands for the call to std::sort: any sorted permutation would do. */
  function SortByRank(docs: seq<Document>): (sorted: seq<Document>)
  {
    if docs == [] then [] else InsertByRank(docs[0], SortByRank(docs[1..]))
  }

  /** The resize to MAX_RESULT_DOCUMENT_COUNT. */
  function Truncate(docs: seq<Document>): (top: seq<Document>)
    ensures |top| == if |docs| < MAX_RESULT_DOCUMENT_COUNT then |docs| else MAX_RESULT_DOCUMENT_COUNT
    ensures top == docs[..|top|]
  {
    if |docs| > MAX_RESULT_DOCUMENT_COUNT then docs[..MAX_RESULT_DOCUMENT_COUNT] else docs
  }

  lemma {:induction false} InsertByRankPermutes(doc: Document, docs: seq<Document>)
    ensures multiset(InsertByRank(doc, docs)) == multiset(docs) + multiset{doc}
  {
    if docs != [] && Precedes(docs[0], doc) {
      InsertByRankPermutes(doc, docs[1..]);
      assert docs == [docs[0]] + docs[1..];
    }
  }

  lemma {:induction false} InsertByRankSorted(doc: Document, docs: seq<Document>)
    requires SortedByRank(docs)
    ensures SortedByRank(InsertByRank(doc, docs))
  {
    if docs != [] && Precedes(docs[0], doc) {
      var tail := InsertByRank(doc, docs[1..]);
      InsertByRankSorted(doc, docs[1..]);
      InsertByRankPermutes(doc, docs[1..]);
      forall k | 0 <= k < |tail|
        ensures !Precedes(tail[k], docs[0])
      {
        assert tail[k] in multiset(tail);
        if tail[k] != doc {
          assert tail[k] in multiset(docs[1..]);
          var m :| 0 <= m < |docs[1..]| && docs[1..][m] == tail[k];
          assert docs[m + 1] == tail[k];
        }
      }
    }
  }

  /** SortByRank returns a sorted permutation of its input. */
  lemma {:induction false} SortByRankCorrect(docs: seq<Document>)
    ensures multiset(SortByRank(docs)) == multiset(docs)
    ensures SortedByRank(SortByRank(docs))
  {
    if docs != [] {
      SortByRankCorrect(docs[1..]);
      InsertByRankPermutes(docs[0], SortByRank(docs[1..]));
      InsertByRankSorted(docs[0], SortByRank(docs[1..]));
      assert docs == [docs[0]] + docs[1..];
    }
  }

  /** The result of sorting then truncating: at most MAX_RESULT_DOCUMENT_COUNT
      documents, all drawn from the input, best first (relevance descending,
      then rating descending), and no document left out ranks above one kept. */
  lemma TopOfRanking(docs: seq<Document>)
    ensures var top := Truncate(SortByRank(docs));
      && |top| == (if |docs| < MAX_RESULT_DOCUMENT_COUNT then |docs| else MAX_RESULT_DOCUMENT_COUNT)
      && multiset(top) <= multiset(docs)
      && SortedByRank(top)
      && (forall i, j :: 0 <= i < j < |top| ==>
            top[i].relevance >= top[j].relevance &&
            (top[i].relevance == top[j].relevance ==> top[i].rating >= top[j].rating))
      && (forall left, i :: left in multiset(docs) - multiset(top) && 0 <= i < |top| ==> !Precedes(left, top[i]))
  {
    var sorted := SortByRank(docs);
    SortByRankCorrect(docs);
    TopIsBestPrefix(docs, sorted);
    SortedByRankOrders(Truncate(sorted));
  }

  /** Relevance descending, then rating descending. */
  lemma SortedByRankOrders(docs: seq<Document>)
    requires SortedByRank(docs)
    ensures forall i, j :: 0 <= i < j < |docs| ==>
      docs[i].relevance >= docs[j].relevance &&
      (docs[i].relevance == docs[j].relevance ==> docs[i].rating >= docs[j].rating)
  {
    forall i, j | 0 <= i < j < |docs|
      ensures docs[i].relevance >= docs[j].relevance
      ensures docs[i].relevance == docs[j].relevance ==> docs[i].rating >= docs[j].rating
    {
      assert !Precedes(docs[j], docs[i]);
    }
  }

  lemma TopIsBestPrefix(docs: seq<Document>, sorted: seq<Document>)
    requires multiset(sorted) == multiset(docs) && SortedByRank(sorted)
    ensures var top := Truncate(sorted);
      && |top| == (if |docs| < MAX_RESULT_DOCUMENT_COUNT then |docs| else MAX_RESULT_DOCUMENT_COUNT)
      && multiset(top) <= multiset(docs)
      && SortedByRank(top)
      && (forall left, i :: left in multiset(docs) - multiset(top) && 0 <= i < |top| ==> !Precedes(left, top[i]))
  {
    assert |sorted| == |docs| by {
      assert |multiset(sorted)| == |multiset(docs)|;
    }
    var top := Truncate(sorted);
    var rest := sorted[|top|..];
    assert top == sorted[..|top|];
    assert sorted == top + rest;
    assert multiset(sorted) == multiset(top) + multiset(rest);
    forall left, i | left in multiset(docs) - multiset(top) && 0 <= i < |top|
      ensures !Precedes(left, top[i])
    {
      assert left in multiset(rest);
      var m :| 0 <= m < |rest| && rest[m] == left;
      assert sorted[|top| + m] == left;
    }
  }
}
