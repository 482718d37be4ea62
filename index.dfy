/** Reference definitions of the search server's state and of what its
    queries return (search_server.h / search_server.cpp), on values. The class
    SearchServer in module Server is proved against these. */
module Index {
  import opened Errors
  import opened Documents
  import opened StringProcessing
  import opened Queries
  import opened Ranking

  /** DocumentData of the source: the stored average rating and status. */
  datatype DocumentData = DocumentData(rating: int, status: DocumentStatus)

  /** word -> (document id -> term frequency), and document id -> data. */
  datatype Corpus = Corpus(index: map<string, map<int, real>>, documents: map<int, DocumentData>)

  function Postings(index: map<string, map<int, real>>, word: string): (postings: map<int, real>)
  {
    if word in index then index[word] else map[]
  }

  ghost predicate PostingsNonEmpty(index: map<string, map<int, real>>)
  {
    forall word :: word in index ==> |index[word]| > 0
  }

  /** Stop words are non-empty valid words. */
  ghost predicate StopWordsValid(stopWords: set<string>)
  {
    forall w :: w in stopWords ==> w != "" && IsValidWord(w)
  }

  /** document_ids_ lists every stored id exactly once, in insertion order. */
  ghost predicate IdsAgree(documents: map<int, DocumentData>, documentIds: seq<int>)
  {
    && (forall i :: 0 <= i < |documentIds| ==> documentIds[i] in documents)
    && (forall id :: id in documents ==> id in documentIds && id >= 0)
    && (forall i, j :: 0 <= i < j < |documentIds| ==> documentIds[i] != documentIds[j])
    && |documents| == |documentIds|
  }

  /** Every indexed word is a non-stop word with postings, every posting names
      a stored document, and every frequency lies in (0, 1]. */
  ghost predicate IndexAgrees(stopWords: set<string>, index: map<string, map<int, real>>,
                              documents: map<int, DocumentData>)
  {
    && PostingsNonEmpty(index)
    && (forall w :: w in index ==> w !in stopWords)
    && (forall w, id :: w in index && id in index[w] ==> id in documents && 0.0 < index[w][id] <= 1.0)
  }

  /** The invariant the server keeps between calls. */
  ghost predicate Consistent(stopWords: set<string>, corpus: Corpus, documentIds: seq<int>)
  {
    && StopWordsValid(stopWords)
    && IdsAgree(corpus.documents, documentIds)
    && IndexAgrees(stopWords, corpus.index, corpus.documents)
  }

  // ----- AddDocument -----

  /** The tokens of a document that are not stop words, in order. */
  function NonStopWords(tokens: seq<string>, stopWords: set<string>): (words: seq<string>)
  {
    if tokens == [] then []
    else
      var last := tokens[|tokens| - 1];
      NonStopWords(tokens[..|tokens| - 1], stopWords) + (if last in stopWords then [] else [last])
  }

  lemma {:induction false} NonStopWordsMembers(tokens: seq<string>, stopWords: set<string>)
    ensures forall w :: w in NonStopWords(tokens, stopWords) <==> w in tokens && w !in stopWords
  {
    if tokens != [] {
      var init := tokens[..|tokens| - 1];
      NonStopWordsMembers(init, stopWords);
      assert tokens == init + [tokens[|tokens| - 1]];
    }
  }

  /** Exact term frequency: occurrences over the number of non-stop words. */
  function TermFrequency(word: string, words: seq<string>): (frequency: real)
    requires |words| > 0
  {
    (multiset(words)[word] as real) / (|words| as real)
  }

  lemma {:induction false} OccurrencesAtMostLength(word: string, words: seq<string>)
    ensures multiset(words)[word] <= |words|
  {
    if words != [] {
      var init := words[..|words| - 1];
      OccurrencesAtMostLength(word, init);
      assert words == init + [words[|words| - 1]];
    }
  }

  /** The frequency of a word of the document lies in (0, 1]. */
  lemma TermFrequencyBounds(word: string, words: seq<string>)
    requires word in words
    ensures 0.0 < TermFrequency(word, words) <= 1.0
  {
    OccurrencesAtMostLength(word, words);
    RatioBounds(multiset(words)[word] as real, |words| as real);
  }

  /** The inverted index after document `id` with non-stop words `words` is added. */
  function WithDocument(index: map<string, map<int, real>>, id: int, words: seq<string>): (after: map<string, map<int, real>>)
  {
    map w | w in index.Keys + (set x | x in words) ::
      if w in words then Postings(index, w)[id := TermFrequency(w, words)] else index[w]
  }

  /** Adding a document touches only its own postings: every other document's
      frequencies are unchanged, and its own are exactly its words' frequencies;
      a document without non-stop words leaves the index as it was. */
  lemma WithDocumentEffect(index: map<string, map<int, real>>, id: int, words: seq<string>)
    requires forall w :: w in index ==> id !in index[w]
    ensures var after := WithDocument(index, id, words);
      && (forall w, d :: d != id ==> (d in Postings(after, w) <==> d in Postings(index, w)))
      && (forall w, d :: d != id && d in Postings(index, w) ==> Postings(after, w)[d] == Postings(index, w)[d])
      && (forall w :: id in Postings(after, w) <==> w in words)
      && (forall w :: w in words ==> Postings(after, w)[id] == TermFrequency(w, words))
      && (words == [] ==> after == index)
  {
  }

  /** `inv` added `count` times to 0. */
  function Repeated(count: nat, inv: real): (total: real)
  {
    if count == 0 then 0.0 else Repeated(count - 1, inv) + inv
  }

  lemma {:induction false} RepeatedIsProduct(count: nat, inv: real)
    ensures Repeated(count, inv) == (count as real) * inv
  {
    if count > 0 {
      RepeatedIsProduct(count - 1, inv);
      AddOneScaled(count - 1, inv);
    }
  }

  /** The frequency of the document under the word, 0 when it has none. */
  function Frequency(index: map<string, map<int, real>>, word: string, id: int): (frequency: real)
  {
    if id in Postings(index, word) then Postings(index, word)[id] else 0.0
  }

  /** `index[word][id] += amount`, creating the missing entries at 0. */
  function Bump(index: map<string, map<int, real>>, word: string, id: int, amount: real): (after: map<string, map<int, real>>)
  {
    index[word := Postings(index, word)[id := Frequency(index, word, id) + amount]]
  }

  /** The index after each of the words of `prefix` has added `inv` to the
      document's frequency for that word: the accumulation loop of
      AddDocument, part way through. */
  function Accumulated(index: map<string, map<int, real>>, id: int, prefix: seq<string>, inv: real)
    : map<string, map<int, real>>
    decreases |prefix|
  {
    if prefix == [] then index
    else Bump(Accumulated(index, id, prefix[..|prefix| - 1], inv), prefix[|prefix| - 1], id, inv)
  }

  /** One entry of the accumulated index: a word of the prefix holds the
      document at `inv` times its count; other words are untouched. */
  lemma {:induction false} AccumulatedAt(index: map<string, map<int, real>>, id: int, prefix: seq<string>, inv: real, w: string)
    requires forall v :: v in index ==> id !in index[v]
    ensures w in Accumulated(index, id, prefix, inv) <==> w in index || w in prefix
    ensures w in prefix ==>
      Accumulated(index, id, prefix, inv)[w] == Postings(index, w)[id := Repeated(multiset(prefix)[w], inv)]
    ensures w !in prefix && w in index ==> Accumulated(index, id, prefix, inv)[w] == index[w]
    decreases |prefix|
  {
    if prefix != [] {
      var init, last := prefix[..|prefix| - 1], prefix[|prefix| - 1];
      assert prefix == init + [last];
      AccumulatedAt(index, id, init, inv, w);
      assert w in prefix <==> w in init || w == last;
      if w == last {
        AccumulatedLast(index, id, init, inv, w);
        assert multiset(prefix)[w] == multiset(init)[w] + 1;
      } else {
        assert multiset(prefix)[w] == multiset(init)[w];
      }
    }
  }

  lemma AccumulatedLast(index: map<string, map<int, real>>, id: int, init: seq<string>, inv: real, w: string)
    requires forall v :: v in index ==> id !in index[v]
    requires w in Accumulated(index, id, init, inv) <==> w in index || w in init
    requires w in init ==>
      Accumulated(index, id, init, inv)[w] == Postings(index, w)[id := Repeated(multiset(init)[w], inv)]
    requires w !in init && w in index ==> Accumulated(index, id, init, inv)[w] == index[w]
    ensures Bump(Accumulated(index, id, init, inv), w, id, inv)[w]
         == Postings(index, w)[id := Repeated(multiset(init)[w] + 1, inv)]
  {
    var before := Accumulated(index, id, init, inv);
    var base := Postings(index, w);
    var count := multiset(init)[w];
    if w in init {
      assert Postings(before, w) == base[id := Repeated(count, inv)];
      assert base[id := Repeated(count, inv)][id := Repeated(count, inv) + inv] == base[id := Repeated(count + 1, inv)];
    } else {
      assert count == 0;
      assert Postings(before, w) == base;
    }
  }

  /** Adding 1/|words| once per occurrence gives the exact term frequency. */
  lemma AccumulatedAll(index: map<string, map<int, real>>, id: int, words: seq<string>)
    requires forall v :: v in index ==> id !in index[v]
    requires |words| > 0
    ensures Accumulated(index, id, words, 1.0 / (|words| as real)) == WithDocument(index, id, words)
  {
    var accumulated := Accumulated(index, id, words, 1.0 / (|words| as real));
    var expected := WithDocument(index, id, words);
    forall w
      ensures w in accumulated <==> w in expected
      ensures w in accumulated ==> accumulated[w] == expected[w]
    {
      AccumulatedAllAt(index, id, words, w);
    }
  }

  lemma AccumulatedAllAt(index: map<string, map<int, real>>, id: int, words: seq<string>, w: string)
    requires forall v :: v in index ==> id !in index[v]
    requires |words| > 0
    ensures w in Accumulated(index, id, words, 1.0 / (|words| as real)) <==> w in WithDocument(index, id, words)
    ensures w in WithDocument(index, id, words) ==>
      Accumulated(index, id, words, 1.0 / (|words| as real))[w] == WithDocument(index, id, words)[w]
  {
    var inv := 1.0 / (|words| as real);
    AccumulatedAt(index, id, words, inv, w);
    WithDocumentAt(index, id, words, w);
    if w in words {
      RepeatedIsFrequency(words, w);
    }
  }

  lemma RepeatedIsFrequency(words: seq<string>, w: string)
    requires w in words
    ensures Repeated(multiset(words)[w], 1.0 / (|words| as real)) == TermFrequency(w, words)
  {
    var n := |words| as real;
    RepeatedIsProduct(multiset(words)[w], 1.0 / n);
    ScaleByInverse(multiset(words)[w] as real, n);
  }

  /** One entry of the index after the addition. */
  lemma WithDocumentAt(index: map<string, map<int, real>>, id: int, words: seq<string>, w: string)
    ensures w in WithDocument(index, id, words) <==> w in index || w in words
    ensures w in words ==> WithDocument(index, id, words)[w] == Postings(index, w)[id := TermFrequency(w, words)]
    ensures w !in words && w in index ==> WithDocument(index, id, words)[w] == index[w]
  {
    assert w in words ==> w in (set x | x in words);
  }

  lemma AddOneScaled(count: nat, inv: real)
    ensures (count + 1) as real * inv == (count as real) * inv + inv
  {
  }

  lemma ScaleByInverse(count: real, n: real)
    requires n > 0.0
    ensures count * (1.0 / n) == count / n
  {
  }

  /** A document not stored yet appears in no postings. */
  lemma FreshIdHasNoPostings(stopWords: set<string>, corpus: Corpus, documentIds: seq<int>, id: int)
    requires Consistent(stopWords, corpus, documentIds) && id !in corpus.documents
    ensures forall w :: w in corpus.index ==> id !in corpus.index[w]
  {
  }

  /** Adding a fresh id with non-stop words keeps the server consistent. */
  lemma AddKeepsConsistent(stopWords: set<string>, corpus: Corpus, documentIds: seq<int>,
                           id: int, words: seq<string>, data: DocumentData)
    requires Consistent(stopWords, corpus, documentIds)
    requires id >= 0 && id !in corpus.documents
    requires forall w :: w in words ==> w !in stopWords
    ensures Consistent(stopWords, Corpus(WithDocument(corpus.index, id, words), corpus.documents[id := data]),
                       documentIds + [id])
  {
    AddKeepsIdsAgree(corpus.documents, documentIds, id, data);
    WithDocumentIndexAgrees(stopWords, corpus.index, corpus.documents, id, words, data);
  }

  lemma AddKeepsIdsAgree(documents: map<int, DocumentData>, documentIds: seq<int>, id: int, data: DocumentData)
    requires IdsAgree(documents, documentIds)
    requires id >= 0 && id !in documents
    ensures IdsAgree(documents[id := data], documentIds + [id])
  {
    var after := documents[id := data];
    var ids := documentIds + [id];
    forall i | 0 <= i < |ids|
      ensures ids[i] in after
    {
      if i < |documentIds| {
        assert ids[i] == documentIds[i];
      }
    }
    forall d | d in after
      ensures d in ids && d >= 0
    {
      if d != id {
        assert d in documentIds;
      }
    }
    forall i, j | 0 <= i < j < |ids|
      ensures ids[i] != ids[j]
    {
      assert ids[i] == documentIds[i] && ids[i] in documents;
    }
  }

  lemma WithDocumentIndexAgrees(stopWords: set<string>, index: map<string, map<int, real>>,
                                documents: map<int, DocumentData>, id: int, words: seq<string>, data: DocumentData)
    requires IndexAgrees(stopWords, index, documents)
    requires forall w :: w in words ==> w !in stopWords
    ensures IndexAgrees(stopWords, WithDocument(index, id, words), documents[id := data])
  {
    WithDocumentFrequencies(stopWords, index, documents, id, words, data);
    WithDocumentPostingsNonEmpty(index, id, words);
  }

  lemma WithDocumentPostingsNonEmpty(index: map<string, map<int, real>>, id: int, words: seq<string>)
    requires PostingsNonEmpty(index)
    ensures PostingsNonEmpty(WithDocument(index, id, words))
  {
    var after := WithDocument(index, id, words);
    forall w | w in after
      ensures |after[w]| > 0
    {
      if w in words {
        assert id in after[w];
      } else {
        assert after[w] == index[w];
      }
    }
  }

  lemma WithDocumentFrequencies(stopWords: set<string>, index: map<string, map<int, real>>,
                                documents: map<int, DocumentData>, id: int, words: seq<string>, data: DocumentData)
    requires IndexAgrees(stopWords, index, documents)
    ensures var after := WithDocument(index, id, words);
      forall w, d :: w in after && d in after[w] ==> d in documents[id := data] && 0.0 < after[w][d] <= 1.0
  {
    var after := WithDocument(index, id, words);
    forall w, d | w in after && d in after[w]
      ensures d in documents[id := data] && 0.0 < after[w][d] <= 1.0
    {
      if w in words {
        assert after[w] == Postings(index, w)[id := TermFrequency(w, words)];
        if d == id {
          TermFrequencyBounds(w, words);
        } else {
          assert d in Postings(index, w) && after[w][d] == Postings(index, w)[d];
          assert w in index && d in index[w] && after[w][d] == index[w][d];
        }
      } else {
        assert w in index && after[w] == index[w];
        assert d in index[w] && after[w][d] == index[w][d];
      }
    }
  }

  /** Every indexed word occurs in at least one and at most all documents, so
      the argument of the logarithm in the IDF is at least 1. */
  lemma DocumentFrequencyBounds(stopWords: set<string>, corpus: Corpus, word: string)
    requires IndexAgrees(stopWords, corpus.index, corpus.documents) && word in corpus.index
    ensures 1 <= |corpus.index[word]| <= |corpus.documents|
    ensures 1.0 <= (|corpus.documents| as real) / (|corpus.index[word]| as real)
  {
    var postings := corpus.index[word];
    forall d | d in postings.Keys
      ensures d in corpus.documents.Keys
    {
      assert d in corpus.index[word];
    }
    SubsetCardinality(postings.Keys, corpus.documents.Keys);
    assert |postings.Keys| == |postings| && |corpus.documents.Keys| == |corpus.documents|;
    RatioBounds(|postings| as real, |corpus.documents| as real);
  }

  lemma RatioBounds(part: real, whole: real)
    requires 0.0 < part <= whole
    ensures 0.0 < part / whole <= 1.0
    ensures 1.0 <= whole / part
  {
    var q, r := part / whole, whole / part;
    assert q * whole == part && r * part == whole;
  }

  lemma SubsetCardinality(a: set<int>, b: set<int>)
    requires a <= b
    ensures |a| <= |b|
  {
    assert b == a + (b - a);
  }

  // ----- ComputeAverageRating -----

  function Sum(values: seq<int>): (total: int)
  {
    if values == [] then 0 else Sum(values[..|values| - 1]) + values[|values| - 1]
  }

  /** C++ integer division: the quotient is truncated toward zero, so the
      remainder takes the sign of the dividend. */
  function TruncDiv(a: int, b: int): (q: int)
    requires b > 0
    ensures a >= 0 ==> 0 <= a - q * b < b
    ensures a < 0 ==> -b < a - q * b <= 0
  {
    if a >= 0 then a / b else -((-a) / b)
  }

  /** The average of the ratings, truncated toward zero; 0 for no ratings. */
  function AverageRating(ratings: seq<int>): (average: int)
    ensures ratings == [] ==> average == 0
    ensures ratings != [] ==> var rest := Sum(ratings) - average * |ratings|;
      -|ratings| < rest < |ratings| && (Sum(ratings) >= 0 ==> rest >= 0) && (Sum(ratings) < 0 ==> rest <= 0)
  {
    if ratings == [] then 0 else TruncDiv(Sum(ratings), |ratings|)
  }

  /** The ratings of the example documents average to 5, 3 and 1; a negative
      sum rounds toward zero, not down. */
  lemma AverageRatingExamples()
    ensures AverageRating([7, 2, 7]) == 5
    ensures AverageRating([1, 2, 8]) == 3
    ensures AverageRating([1, 1, 1]) == 1
    ensures AverageRating([-3, -4]) == -3
  {
    assert Sum([7, 2, 7]) == 16 by {
      assert [7, 2, 7][..2] == [7, 2] && [7, 2][..1] == [7] && [7][..0] == [];
    }
    assert Sum([1, 2, 8]) == 11 by {
      assert [1, 2, 8][..2] == [1, 2] && [1, 2][..1] == [1] && [1][..0] == [];
    }
    assert Sum([1, 1, 1]) == 3 by {
      assert [1, 1, 1][..2] == [1, 1] && [1, 1][..1] == [1] && [1][..0] == [];
    }
    assert Sum([-3, -4]) == -7 by {
      assert [-3, -4][..1] == [-3] && [-3][..0] == [];
    }
  }

  // ----- FindAllDocuments / FindTopDocuments -----

  /** The word is indexed and the document contains it. */
  predicate Contains(index: map<string, map<int, real>>, word: string, id: int)
  {
    word in index && id in index[word]
  }

  /** ComputeWordInverseDocumentFreq with the logarithm as a parameter. */
  function InverseDocumentFrequency(corpus: Corpus, ln: real -> real, word: string): (idf: real)
    requires word in corpus.index && |corpus.index[word]| > 0
    ensures |corpus.index[word]| == |corpus.documents| ==> idf == ln(1.0)
  {
    var ratio := (|corpus.documents| as real) / (|corpus.index[word]| as real);
    assert |corpus.index[word]| == |corpus.documents| ==> ratio == 1.0;
    ln(ratio)
  }

  /** For an increasing logarithm, a word held by fewer documents weighs at
      least as much as a word held by more. */
  lemma RarerWordsWeighMore(corpus: Corpus, ln: real -> real, rare: string, common: string)
    requires rare in corpus.index && common in corpus.index
    requires 0 < |corpus.index[rare]| <= |corpus.index[common]|
    requires forall x: real, y: real :: 0.0 < x <= y ==> ln(x) <= ln(y)
    ensures InverseDocumentFrequency(corpus, ln, common) <= InverseDocumentFrequency(corpus, ln, rare)
  {
    var n := |corpus.documents| as real;
    var few := |corpus.index[rare]| as real;
    var many := |corpus.index[common]| as real;
    if n > 0.0 {
      RatioAntitone(n, few, many);
      assert ln(n / many) <= ln(n / few);
    } else {
      assert n / many == n / few;
    }
  }

  lemma RatioAntitone(n: real, few: real, many: real)
    requires n > 0.0 && 0.0 < few <= many
    ensures 0.0 < n / many <= n / few
  {
    assert n / many * many == n;
    assert n / few * few == n;
  }

  /** What one plus word adds to a document's relevance. */
  function Contribution(corpus: Corpus, ln: real -> real, word: string, id: int): (amount: real)
    requires PostingsNonEmpty(corpus.index)
  {
    if Contains(corpus.index, word, id) then corpus.index[word][id] * InverseDocumentFrequency(corpus, ln, word)
    else 0.0
  }

  /** The relevance of a document: the sum of the contributions of the plus words. */
  ghost function Relevance(corpus: Corpus, ln: real -> real, words: set<string>, id: int): (relevance: real)
    requires PostingsNonEmpty(corpus.index)
    decreases words
  {
    if words == {} then 0.0
    else
      var w :| w in words;
      Contribution(corpus, ln, w, id) + Relevance(corpus, ln, words - {w}, id)
  }

  /** The sum does not depend on which word is taken out first. */
  lemma {:induction false} RelevanceRemove(corpus: Corpus, ln: real -> real, words: set<string>, word: string, id: int)
    requires PostingsNonEmpty(corpus.index) && word in words
    ensures Relevance(corpus, ln, words, id) == Contribution(corpus, ln, word, id) + Relevance(corpus, ln, words - {word}, id)
    decreases words
  {
    var w :| w in words && Relevance(corpus, ln, words, id) == Contribution(corpus, ln, w, id) + Relevance(corpus, ln, words - {w}, id);
    if w != word {
      RelevanceRemove(corpus, ln, words - {w}, word, id);
      RelevanceRemove(corpus, ln, words - {word}, w, id);
      assert words - {w} - {word} == words - {word} - {w};
    }
  }

  /** The document contains at least one of the words. */
  ghost predicate ContainsSome(index: map<string, map<int, real>>, words: set<string>, id: int)
  {
    exists w :: w in words && Contains(index, w, id)
  }

  /** A document is found when it passes the predicate, contains some plus
      word and contains no minus word (the predicate plays no part in the
      exclusion). */
  ghost predicate Matches(corpus: Corpus, query: Query, accept: DocumentPredicate, id: int)
  {
    && id in corpus.documents
    && accept(id, corpus.documents[id].status, corpus.documents[id].rating)
    && ContainsSome(corpus.index, query.plusWords, id)
    && !ContainsSome(corpus.index, query.minusWords, id)
  }

  ghost function FoundIds(corpus: Corpus, query: Query, accept: DocumentPredicate): (ids: set<int>)
  {
    set id | id in corpus.documents && Matches(corpus, query, accept, id)
  }

  predicate IsLeast(least: int, ids: set<int>)
  {
    least in ids && forall id :: id in ids ==> least <= id
  }

  ghost function LeastOf(ids: set<int>): (least: int)
    requires ids != {}
    ensures IsLeast(least, ids)
  {
    LeastExists(ids);
    var least :| IsLeast(least, ids);
    least
  }

  lemma {:induction false} LeastExists(ids: set<int>)
    requires ids != {}
    ensures exists least :: IsLeast(least, ids)
    decreases |ids|
  {
    if forall y :: y !in ids {
      assert false;
    }
    var x :| x in ids;
    var rest := ids - {x};
    if rest != {} {
      LeastExists(rest);
      var least :| IsLeast(least, rest);
      var m := if x < least then x else least;
      forall id | id in ids
        ensures m <= id
      {
        if id != x {
          assert id in rest;
        }
      }
      assert IsLeast(m, ids);
    } else {
      assert ids == {x};
      assert IsLeast(x, ids);
    }
  }

  /** The ids of a set in ascending order (the iteration order of std::map). */
  ghost function SortedIds(ids: set<int>): (sorted: seq<int>)
    decreases |ids|
  {
    if ids == {} then []
    else
      var least := LeastOf(ids);
      [least] + SortedIds(ids - {least})
  }

  /** SortedIds lists exactly the ids of the set, strictly ascending. */
  lemma {:induction false} SortedIdsCorrect(ids: set<int>)
    ensures |SortedIds(ids)| == |ids|
    ensures forall id :: id in SortedIds(ids) <==> id in ids
    ensures forall i, j :: 0 <= i < j < |SortedIds(ids)| ==> SortedIds(ids)[i] < SortedIds(ids)[j]
    decreases |ids|
  {
    if ids != {} {
      var least := LeastOf(ids);
      var rest := ids - {least};
      SortedIdsCorrect(rest);
      var sorted := SortedIds(ids);
      assert sorted == [least] + SortedIds(rest);
      forall i, j | 0 <= i < j < |sorted|
        ensures sorted[i] < sorted[j]
      {
        assert sorted[j] == SortedIds(rest)[j - 1] && sorted[j] in rest;
        if i > 0 {
          assert sorted[i] == SortedIds(rest)[i - 1];
        }
      }
    }
  }

  /** The Document the server reports for a found id. */
  ghost function Found(corpus: Corpus, ln: real -> real, query: Query, id: int): (doc: Document)
    requires PostingsNonEmpty(corpus.index) && id in corpus.documents
  {
    Document(id, Relevance(corpus, ln, query.plusWords, id), corpus.documents[id].rating)
  }

  ghost function FoundList(corpus: Corpus, ln: real -> real, query: Query, ids: seq<int>): (docs: seq<Document>)
    requires PostingsNonEmpty(corpus.index)
    requires forall i :: 0 <= i < |ids| ==> ids[i] in corpus.documents
  {
    if ids == [] then [] else [Found(corpus, ln, query, ids[0])] + FoundList(corpus, ln, query, ids[1..])
  }

  lemma {:induction false} FoundListEntries(corpus: Corpus, ln: real -> real, query: Query, ids: seq<int>)
    requires PostingsNonEmpty(corpus.index)
    requires forall i :: 0 <= i < |ids| ==> ids[i] in corpus.documents
    ensures |FoundList(corpus, ln, query, ids)| == |ids|
    ensures forall i :: 0 <= i < |ids| ==> FoundList(corpus, ln, query, ids)[i] == Found(corpus, ln, query, ids[i])
  {
    if ids != [] {
      FoundListEntries(corpus, ln, query, ids[1..]);
    }
  }

  /** The found documents of a set of stored ids, by ascending id. */
  ghost function FoundInOrder(corpus: Corpus, ln: real -> real, query: Query, ids: set<int>): (docs: seq<Document>)
    requires PostingsNonEmpty(corpus.index)
    requires forall id :: id in ids ==> id in corpus.documents
  {
    SortedIdsStored(corpus, ids);
    FoundList(corpus, ln, query, SortedIds(ids))
  }

  lemma SortedIdsStored(corpus: Corpus, ids: set<int>)
    requires forall id :: id in ids ==> id in corpus.documents
    ensures forall i :: 0 <= i < |SortedIds(ids)| ==> SortedIds(ids)[i] in corpus.documents
  {
    SortedIdsCorrect(ids);
    forall i | 0 <= i < |SortedIds(ids)|
      ensures SortedIds(ids)[i] in corpus.documents
    {
      assert SortedIds(ids)[i] in SortedIds(ids);
    }
  }

  /** Taking the smallest id off the front: the step of the collecting loop. */
  lemma FoundInOrderStep(corpus: Corpus, ln: real -> real, query: Query, ids: set<int>, least: int)
    requires PostingsNonEmpty(corpus.index)
    requires forall id :: id in ids ==> id in corpus.documents
    requires IsLeast(least, ids)
    ensures FoundInOrder(corpus, ln, query, ids)
         == [Found(corpus, ln, query, least)] + FoundInOrder(corpus, ln, query, ids - {least})
  {
    assert LeastOf(ids) == least;
    assert SortedIds(ids) == [least] + SortedIds(ids - {least});
  }

  /** What FindAllDocuments returns: the found documents by ascending id. */
  ghost function AllFound(corpus: Corpus, ln: real -> real, query: Query, accept: DocumentPredicate): (found: seq<Document>)
    requires PostingsNonEmpty(corpus.index)
  {
    FoundInOrder(corpus, ln, query, FoundIds(corpus, query, accept))
  }

  /** What FindTopDocuments returns. */
  ghost function TopDocuments(stopWords: set<string>, corpus: Corpus, ln: real -> real,
                              rawQuery: string, accept: DocumentPredicate): Result<seq<Document>>
    requires PostingsNonEmpty(corpus.index)
  {
    match QueryOf(rawQuery, stopWords)
    case Err(e) => Err(e)
    case Ok(query) => Ok(Truncate(SortByRank(AllFound(corpus, ln, query, accept))))
  }

  /** FindAllDocuments: a document is listed iff it matches the query, ids are
      strictly ascending, and each entry carries the stored rating and the
      relevance summed over the plus words. */
  lemma AllFoundCharacterised(corpus: Corpus, ln: real -> real, query: Query, accept: DocumentPredicate)
    requires PostingsNonEmpty(corpus.index)
    ensures var found := AllFound(corpus, ln, query, accept);
      && (forall id :: (exists i :: 0 <= i < |found| && found[i].id == id) <==> Matches(corpus, query, accept, id))
      && (forall i, j :: 0 <= i < j < |found| ==> found[i].id < found[j].id)
      && (forall i :: 0 <= i < |found| ==>
            && found[i].id in corpus.documents
            && found[i].rating == corpus.documents[found[i].id].rating
            && found[i].relevance == Relevance(corpus, ln, query.plusWords, found[i].id))
  {
    AllFoundEntries(corpus, ln, query, accept);
    AllFoundMembers(corpus, ln, query, accept);
    SortedIdsCorrect(FoundIds(corpus, query, accept));
  }

  /** The i-th entry is the found document with the i-th smallest id. */
  lemma AllFoundEntries(corpus: Corpus, ln: real -> real, query: Query, accept: DocumentPredicate)
    requires PostingsNonEmpty(corpus.index)
    ensures var ids := SortedIds(FoundIds(corpus, query, accept));
      var found := AllFound(corpus, ln, query, accept);
      && |found| == |ids|
      && forall i :: 0 <= i < |ids| ==> ids[i] in corpus.documents && found[i] == Found(corpus, ln, query, ids[i])
  {
    SortedIdsStored(corpus, FoundIds(corpus, query, accept));
    FoundListEntries(corpus, ln, query, SortedIds(FoundIds(corpus, query, accept)));
  }

  lemma AllFoundMembers(corpus: Corpus, ln: real -> real, query: Query, accept: DocumentPredicate)
    requires PostingsNonEmpty(corpus.index)
    ensures var found := AllFound(corpus, ln, query, accept);
      forall id :: (exists i :: 0 <= i < |found| && found[i].id == id) <==> Matches(corpus, query, accept, id)
  {
    var matching := FoundIds(corpus, query, accept);
    var ids := SortedIds(matching);
    var found := AllFound(corpus, ln, query, accept);
    AllFoundEntries(corpus, ln, query, accept);
    SortedIdsCorrect(matching);
    forall id
      ensures (exists i :: 0 <= i < |found| && found[i].id == id) <==> Matches(corpus, query, accept, id)
    {
      if Matches(corpus, query, accept, id) {
        assert id in matching;
        var i :| 0 <= i < |ids| && ids[i] == id;
        assert found[i].id == id;
      } else {
        forall i | 0 <= i < |found|
          ensures found[i].id != id
        {
          assert found[i].id == ids[i] && ids[i] in matching;
        }
      }
    }
  }

  // ----- The loops of FindAllDocuments -----

  /** The document is stored and passes the predicate. */
  ghost predicate Passes(corpus: Corpus, accept: DocumentPredicate, id: int)
  {
    id in corpus.documents && accept(id, corpus.documents[id].status, corpus.documents[id].rating)
  }

  /** A document with no word of `words` has relevance 0 over them. */
  lemma {:induction false} RelevanceOfAbsent(corpus: Corpus, ln: real -> real, words: set<string>, id: int)
    requires PostingsNonEmpty(corpus.index) && !ContainsSome(corpus.index, words, id)
    ensures Relevance(corpus, ln, words, id) == 0.0
    decreases words
  {
    if words != {} {
      var w :| w in words;
      RelevanceRemove(corpus, ln, words, w, id);
      assert !Contains(corpus.index, w, id);
      assert !ContainsSome(corpus.index, words - {w}, id);
      RelevanceOfAbsent(corpus, ln, words - {w}, id);
    }
  }

  /** After the plus words `words`: exactly the documents that pass the
      predicate and contain one of them have an entry, holding their
      relevance over `words`. */
  ghost predicate Scored(corpus: Corpus, ln: real -> real, words: set<string>, accept: DocumentPredicate,
                         relevance: map<int, real>)
  {
    && PostingsNonEmpty(corpus.index)
    && (forall id :: id in relevance <==> Passes(corpus, accept, id) && ContainsSome(corpus.index, words, id))
    && (forall id :: id in relevance ==> relevance[id] == Relevance(corpus, ln, words, id))
  }

  /** Part way through the postings of `word`: the documents of `seen` have
      had its contribution added. */
  ghost predicate PartlyScored(corpus: Corpus, ln: real -> real, words: set<string>, word: string, seen: set<int>,
                               accept: DocumentPredicate, relevance: map<int, real>)
  {
    && PostingsNonEmpty(corpus.index)
    && (forall id :: id in relevance <==>
          Passes(corpus, accept, id) && (ContainsSome(corpus.index, words, id) || id in seen))
    && (forall id :: id in relevance ==>
          relevance[id] == Relevance(corpus, ln, words, id) + (if id in seen then Contribution(corpus, ln, word, id) else 0.0))
  }

  lemma ScoringStart(corpus: Corpus, ln: real -> real, words: set<string>, word: string, accept: DocumentPredicate,
                     relevance: map<int, real>)
    requires Scored(corpus, ln, words, accept, relevance)
    ensures PartlyScored(corpus, ln, words, word, {}, accept, relevance)
  {
  }

  /** A posting's share of the relevance: term frequency times inverse
      document frequency. */
  lemma ContributionOfPosting(corpus: Corpus, ln: real -> real, word: string, id: int)
    requires PostingsNonEmpty(corpus.index) && word in corpus.index && id in corpus.index[word]
    ensures Contribution(corpus, ln, word, id) == corpus.index[word][id] * InverseDocumentFrequency(corpus, ln, word)
  {
  }

  /** One posting of `word` whose document fails the predicate: nothing changes. */
  lemma ScoringVisitFailing(corpus: Corpus, ln: real -> real, words: set<string>, word: string, seen: set<int>,
                            accept: DocumentPredicate, relevance: map<int, real>, id: int)
    requires PartlyScored(corpus, ln, words, word, seen, accept, relevance)
    requires !Passes(corpus, accept, id)
    ensures PartlyScored(corpus, ln, words, word, seen + {id}, accept, relevance)
  {
  }

  /** One posting of `word` whose document passes: the word's contribution is
      added to its entry, starting from 0. */
  lemma ScoringVisitPassing(corpus: Corpus, ln: real -> real, words: set<string>, word: string, seen: set<int>,
                            accept: DocumentPredicate, relevance: map<int, real>, id: int,
                            before: real, termFreq: real, inverseDocumentFreq: real, updated: map<int, real>)
    requires PartlyScored(corpus, ln, words, word, seen, accept, relevance)
    requires word in corpus.index && id in corpus.index[word] && id !in seen && Passes(corpus, accept, id)
    requires before == (if id in relevance then relevance[id] else 0.0)
    requires termFreq == corpus.index[word][id] && inverseDocumentFreq == InverseDocumentFrequency(corpus, ln, word)
    requires updated == relevance[id := before + termFreq * inverseDocumentFreq]
    ensures PartlyScored(corpus, ln, words, word, seen + {id}, accept, updated)
  {
    var amount := Contribution(corpus, ln, word, id);
    assert termFreq * inverseDocumentFreq == amount by {
      ContributionOfPosting(corpus, ln, word, id);
    }
    ScoringAddsContribution(corpus, ln, words, word, seen, accept, relevance, id, before);
  }

  /** The entry of a passing document, before or 0, grows by the word's contribution. */
  lemma ScoringAddsContribution(corpus: Corpus, ln: real -> real, words: set<string>, word: string, seen: set<int>,
                                accept: DocumentPredicate, relevance: map<int, real>, id: int, before: real)
    requires PartlyScored(corpus, ln, words, word, seen, accept, relevance)
    requires word in corpus.index && id in corpus.index[word] && id !in seen && Passes(corpus, accept, id)
    requires before == (if id in relevance then relevance[id] else 0.0)
    ensures PartlyScored(corpus, ln, words, word, seen + {id}, accept,
                         relevance[id := before + Contribution(corpus, ln, word, id)])
  {
    assert before == Relevance(corpus, ln, words, id) by {
      if id !in relevance {
        RelevanceOfAbsent(corpus, ln, words, id);
      }
    }
  }

  /** All postings of `word` visited: the scores now cover `words + {word}`. */
  lemma ScoringFinish(corpus: Corpus, ln: real -> real, words: set<string>, word: string, accept: DocumentPredicate,
                      relevance: map<int, real>)
    requires word !in words
    requires PartlyScored(corpus, ln, words, word, Postings(corpus.index, word).Keys, accept, relevance)
    ensures Scored(corpus, ln, words + {word}, accept, relevance)
  {
    var all := words + {word};
    assert all - {word} == words;
    forall id
      ensures ContainsSome(corpus.index, all, id) <==> ContainsSome(corpus.index, words, id) || id in Postings(corpus.index, word)
      ensures Relevance(corpus, ln, all, id)
           == Relevance(corpus, ln, words, id) + (if id in Postings(corpus.index, word) then Contribution(corpus, ln, word, id) else 0.0)
    {
      RelevanceRemove(corpus, ln, all, word, id);
      if id in Postings(corpus.index, word) {
        assert Contains(corpus.index, word, id);
      }
    }
  }

  /** After the minus words `minus`: the scored documents containing none of
      them keep their entries, unchanged. */
  ghost predicate Excluded(corpus: Corpus, scores: map<int, real>, minus: set<string>, relevance: map<int, real>)
  {
    && (forall id :: id in relevance <==> id in scores && !ContainsSome(corpus.index, minus, id))
    && (forall id :: id in relevance ==> relevance[id] == scores[id])
  }

  /** Part way through erasing the postings of `word`. */
  ghost predicate PartlyExcluded(corpus: Corpus, scores: map<int, real>, minus: set<string>, erased: set<int>,
                                 relevance: map<int, real>)
  {
    && (forall id :: id in relevance <==> id in scores && !ContainsSome(corpus.index, minus, id) && id !in erased)
    && (forall id :: id in relevance ==> relevance[id] == scores[id])
  }

  lemma ExclusionFinish(corpus: Corpus, scores: map<int, real>, minus: set<string>, word: string,
                        relevance: map<int, real>)
    requires PartlyExcluded(corpus, scores, minus, Postings(corpus.index, word).Keys, relevance)
    ensures Excluded(corpus, scores, minus + {word}, relevance)
  {
    forall id
      ensures ContainsSome(corpus.index, minus + {word}, id) <==> ContainsSome(corpus.index, minus, id) || id in Postings(corpus.index, word)
    {
      if id in Postings(corpus.index, word) {
        assert Contains(corpus.index, word, id);
      }
    }
  }

  /** Scoring all plus words and erasing all minus words leaves exactly the
      found documents, each with its relevance. */
  lemma ScoresAreFound(corpus: Corpus, ln: real -> real, query: Query, accept: DocumentPredicate,
                       scores: map<int, real>, relevance: map<int, real>)
    requires Scored(corpus, ln, query.plusWords, accept, scores)
    requires Excluded(corpus, scores, query.minusWords, relevance)
    ensures relevance.Keys == FoundIds(corpus, query, accept)
    ensures forall id :: id in relevance ==> relevance[id] == Relevance(corpus, ln, query.plusWords, id)
  {
    forall id
      ensures id in relevance <==> id in FoundIds(corpus, query, accept)
    {
      assert id in relevance <==> Matches(corpus, query, accept, id);
    }
  }

  // ----- MatchDocument -----

  /** The plus words the document contains, or none if it contains a minus word. */
  ghost function MatchedWords(corpus: Corpus, query: Query, id: int): (matched: set<string>)
  {
    if ContainsSome(corpus.index, query.minusWords, id) then {}
    else set w | w in query.plusWords && Contains(corpus.index, w, id)
  }

  /** MatchDocument and FindAllDocuments agree: a stored document has matched
      words exactly when a predicate accepting it finds it. */
  lemma MatchedIffFound(corpus: Corpus, query: Query, accept: DocumentPredicate, id: int)
    requires Passes(corpus, accept, id)
    ensures MatchedWords(corpus, query, id) != {} <==> Matches(corpus, query, accept, id)
  {
    var matched := MatchedWords(corpus, query, id);
    if Matches(corpus, query, accept, id) {
      var w :| w in query.plusWords && Contains(corpus.index, w, id);
      assert w in matched;
    }
    if matched != {} {
      var w :| w in matched;
      assert w in query.plusWords && Contains(corpus.index, w, id);
    }
  }
}
