/** The class SearchServer (search_server.h, search_server.cpp): an inverted
    index of documents, updated in place by AddDocument and read by the
    queries. Each method is proved against the reference definitions of
    module Index. */
module Server {
  import opened Errors
  import opened Documents
  import opened StringOrder
  import opened StringProcessing
  import opened Queries
  import opened Ranking
  import opened Index

  /** The predicate of the status overloads: the status alone decides. */
  function StatusIs(sought: DocumentStatus): (accept: DocumentPredicate)
    ensures forall id, status, rating :: accept(id, status, rating) <==> status == sought
  {
    (id, status, rating) => status == sought
  }

  class SearchServer {
    const stopWords: set<string>
    /** The natural logarithm the inverse document frequency uses. */
    const ln: real -> real
    var wordToDocumentFreqs: map<string, map<int, real>>
    var documents: map<int, DocumentData>
    var documentIds: seq<int>

    function State(): (corpus: Corpus)
      reads this
    {
      Corpus(wordToDocumentFreqs, documents)
    }

    ghost predicate Valid()
      reads this
    {
      Consistent(stopWords, State(), documentIds)
    }

    constructor(stopWords: set<string>, ln: real -> real)
      requires StopWordsValid(stopWords)
      ensures Valid()
      ensures this.stopWords == stopWords && this.ln == ln
      ensures wordToDocumentFreqs == map[] && documents == map[] && documentIds == []
    {
      this.stopWords := stopWords;
      this.ln := ln;
      wordToDocumentFreqs := map[];
      documents := map[];
      documentIds := [];
    }

    /** Empty strings are dropped; the first non-empty string holding a
        control character is refused. */
    static method ParseStopWords(strings: seq<string>) returns (r: Result<set<string>>)
      ensures r.Err? <==> exists i :: 0 <= i < |strings| && !IsValidWord(strings[i])
      ensures r.Err? ==> exists i :: FirstInvalidAt(strings, i) && r.error == InvalidStopWord(strings[i])
      ensures r.Ok? ==> r.value == NonEmptyStrings(strings) && StopWordsValid(r.value)
    {
      var nonEmptyStrings: set<string> := {};
      var i := 0;
      while i < |strings|
        invariant 0 <= i <= |strings|
        invariant forall k :: 0 <= k < i ==> IsValidWord(strings[k])
        invariant nonEmptyStrings == NonEmptyStrings(strings[..i])
      {
        var str := strings[i];
        if str != [] {
          if !IsValidWord(str) {
            assert FirstInvalidAt(strings, i);
            return Err(InvalidStopWord(str));
          }
          nonEmptyStrings := nonEmptyStrings + {str};
        }
        assert strings[..i + 1] == strings[..i] + [str];
        i := i + 1;
      }
      assert strings[..i] == strings;
      return Ok(nonEmptyStrings);
    }

    /** The number of documents added. */
    method GetDocumentCount() returns (count: nat)
      requires Valid()
      ensures count == |documentIds| && count == |documents|
    {
      count := |documents|;
    }

    /** The id of the n-th document added; out of range past the last. */
    method GetDocumentId(n: nat) returns (r: Result<int>)
      requires Valid()
      ensures n < |documentIds| ==> r == Ok(documentIds[n])
      ensures n >= |documentIds| ==> r == Err(OutOfRange)
      ensures r.Ok? ==> r.value >= 0 && r.value in documents
    {
      if n < |documentIds| {
        r := Ok(documentIds[n]);
      } else {
        r := Err(OutOfRange);
      }
    }

    /** The non-stop words of a document, in order; the first token holding a
        control character is refused. */
    method ParseDocument(text: string) returns (r: Result<seq<string>>)
      ensures r.Err? <==> exists i :: 0 <= i < |Split(text, SpaceOrTab)| && !IsValidWord(Split(text, SpaceOrTab)[i])
      ensures r.Err? ==>
        exists i :: FirstInvalidAt(Split(text, SpaceOrTab), i) && r.error == InvalidDocumentWord(Split(text, SpaceOrTab)[i])
      ensures r.Ok? ==> r.value == NonStopWords(Split(text, SpaceOrTab), stopWords)
      ensures r.Ok? ==> forall w :: w in r.value <==> w in Split(text, SpaceOrTab) && w !in stopWords
    {
      var tokens := SplitIntoWords(text);
      var words: seq<string> := [];
      var i := 0;
      while i < |tokens|
        invariant 0 <= i <= |tokens|
        invariant forall k :: 0 <= k < i ==> IsValidWord(tokens[k])
        invariant words == NonStopWords(tokens[..i], stopWords)
      {
        var word := tokens[i];
        if !IsValidWord(word) {
          assert FirstInvalidAt(tokens, i);
          return Err(InvalidDocumentWord(word));
        }
        if word !in stopWords {
          words := words + [word];
        }
        assert tokens[..i + 1][..i] == tokens[..i];
        i := i + 1;
      }
      assert tokens[..i] == tokens;
      NonStopWordsMembers(tokens, stopWords);
      return Ok(words);
    }

    /** Adds a document: a negative or known id, or a token with a control
        character, is refused before any field changes; otherwise each
        non-stop word gets the document at its exact term frequency, and the
        document is stored with its average rating and listed last. */
    method AddDocument(id: int, text: string, status: DocumentStatus, ratings: seq<int>) returns (r: Outcome)
      requires Valid()
      modifies this
      ensures Valid()
      ensures r.Fail? ==> unchanged(this)
      ensures id < 0 || id in old(documents) ==> r == Fail(InvalidDocumentId(id))
      ensures id >= 0 && id !in old(documents) ==>
        (r.Fail? <==> exists i :: 0 <= i < |Split(text, SpaceOrTab)| && !IsValidWord(Split(text, SpaceOrTab)[i]))
      ensures id >= 0 && id !in old(documents) && r.Fail? ==>
        exists i :: FirstInvalidAt(Split(text, SpaceOrTab), i) && r.error == InvalidDocumentWord(Split(text, SpaceOrTab)[i])
      ensures r.Pass? ==>
        && documents == old(documents)[id := DocumentData(AverageRating(ratings), status)]
        && documentIds == old(documentIds) + [id]
        && wordToDocumentFreqs
           == WithDocument(old(wordToDocumentFreqs), id, NonStopWords(Split(text, SpaceOrTab), stopWords))
    {
      if id < 0 || id in documents {
        return Fail(InvalidDocumentId(id));
      }
      var parsed := ParseDocument(text);
      if parsed.Err? {
        return Fail(parsed.error);
      }
      var words := parsed.value;
      ghost var before := wordToDocumentFreqs;
      FreshIdHasNoPostings(stopWords, State(), documentIds, id);
      AccumulateFrequencies(id, words);
      var data := DocumentData(AverageRating(ratings), status);
      documents := documents[id := data];
      documentIds := documentIds + [id];
      AddKeepsConsistent(stopWords, Corpus(before, old(documents)), old(documentIds), id, words, data);
      return Pass;
    }

    /** The term-frequency loop of AddDocument: every occurrence of a word adds
        1/|words| to the document's entry under that word. */
    method AccumulateFrequencies(id: int, words: seq<string>)
      requires forall w :: w in wordToDocumentFreqs ==> id !in wordToDocumentFreqs[w]
      modifies this`wordToDocumentFreqs
      ensures wordToDocumentFreqs == WithDocument(old(wordToDocumentFreqs), id, words)
    {
      ghost var before := wordToDocumentFreqs;
      var invWordCount := if words == [] then 0.0 else 1.0 / (|words| as real);
      var i := 0;
      while i < |words|
        invariant 0 <= i <= |words|
        invariant wordToDocumentFreqs == Accumulated(before, id, words[..i], invWordCount)
      {
        var word := words[i];
        var postings := if word in wordToDocumentFreqs then wordToDocumentFreqs[word] else map[];
        var current := if id in postings then postings[id] else 0.0;
        wordToDocumentFreqs := wordToDocumentFreqs[word := postings[id := current + invWordCount]];
        assert words[..i + 1][..i] == words[..i];
        i := i + 1;
      }
      if words == [] {
        WithDocumentEffect(before, id, words);
      } else {
        assert words[..i] == words;
        AccumulatedAll(before, id, words);
      }
    }

    /** The documents passing the predicate that contain a plus word and no
        minus word, by ascending id, each with its relevance. */
    method FindAllDocuments(query: Query, accept: DocumentPredicate) returns (found: seq<Document>)
      requires Valid()
      ensures found == AllFound(State(), ln, query, accept)
    {
      var relevance := ScorePlusWords(query.plusWords, accept);
      ghost var scores := relevance;
      relevance := EraseMinusWords(query.minusWords, relevance);
      ScoresAreFound(State(), ln, query, accept, scores, relevance);
      found := [];
      var remaining := relevance.Keys;
      while remaining != {}
        invariant remaining <= relevance.Keys
        invariant found + FoundInOrder(State(), ln, query, remaining) == AllFound(State(), ln, query, accept)
        decreases remaining
      {
        LeastExists(remaining);
        var id :| IsLeast(id, remaining);
        FoundInOrderStep(State(), ln, query, remaining, id);
        assert found + [Found(State(), ln, query, id)] + FoundInOrder(State(), ln, query, remaining - {id})
            == found + FoundInOrder(State(), ln, query, remaining);
        found := found + [Document(id, relevance[id], documents[id].rating)];
        remaining := remaining - {id};
      }
    }

    /** The accumulation loop of FindAllDocuments over the plus words. */
    method ScorePlusWords(plusWords: set<string>, accept: DocumentPredicate) returns (relevance: map<int, real>)
      requires IndexAgrees(stopWords, wordToDocumentFreqs, documents)
      ensures Scored(State(), ln, plusWords, accept, relevance)
    {
      relevance := map[];
      var plus := plusWords;
      while plus != {}
        invariant plus <= plusWords
        invariant Scored(State(), ln, plusWords - plus, accept, relevance)
        decreases plus
      {
        var word :| word in plus;
        ghost var done := plusWords - plus;
        relevance := ScoreWord(word, done, accept, relevance);
        plus := plus - {word};
        assert plusWords - plus == done + {word};
      }
      assert plusWords - plus == plusWords;
    }

    /** One plus word: each passing document holding it gets term frequency
        times inverse document frequency added; a word not indexed adds nothing. */
    method ScoreWord(word: string, ghost done: set<string>, accept: DocumentPredicate, relevance: map<int, real>)
      returns (next: map<int, real>)
      requires IndexAgrees(stopWords, wordToDocumentFreqs, documents) && word !in done
      requires Scored(State(), ln, done, accept, relevance)
      ensures Scored(State(), ln, done + {word}, accept, next)
    {
      ghost var corpus := State();
      next := relevance;
      ScoringStart(corpus, ln, done, word, accept, next);
      if word in wordToDocumentFreqs {
        var inverseDocumentFreq := InverseDocumentFrequency(State(), ln, word);
        assert wordToDocumentFreqs[word].Keys <= documents.Keys by {
          forall id | id in wordToDocumentFreqs[word] ensures id in documents {
          }
        }
        next := ScorePostings(corpus, ln, done, word, wordToDocumentFreqs[word], documents, inverseDocumentFreq,
                              accept, next);
      }
      ScoringFinish(corpus, ln, done, word, accept, next);
    }

    /** The erasing loop of FindAllDocuments over the minus words. */
    method EraseMinusWords(minusWords: set<string>, scores: map<int, real>) returns (relevance: map<int, real>)
      ensures Excluded(State(), scores, minusWords, relevance)
    {
      relevance := scores;
      var minus := minusWords;
      while minus != {}
        invariant minus <= minusWords
        invariant Excluded(State(), scores, minusWords - minus, relevance)
        decreases minus
      {
        var word :| word in minus;
        ghost var done := minusWords - minus;
        if word in wordToDocumentFreqs {
          var ids := wordToDocumentFreqs[word].Keys;
          while ids != {}
            invariant ids <= wordToDocumentFreqs[word].Keys
            invariant PartlyExcluded(State(), scores, done, wordToDocumentFreqs[word].Keys - ids, relevance)
            decreases ids
          {
            var id := PickId(ids);
            relevance := relevance - {id};
            ids := ids - {id};
          }
        }
        ExclusionFinish(State(), scores, done, word, relevance);
        minus := minus - {word};
        assert minusWords - minus == done + {word};
      }
    }

    /** The top documents for a raw query: parse errors are reported; the
        found documents are ranked and cut to MAX_RESULT_DOCUMENT_COUNT. */
    method FindTopDocuments(rawQuery: string, accept: DocumentPredicate) returns (r: Result<seq<Document>>)
      requires Valid()
      ensures r == TopDocuments(stopWords, State(), ln, rawQuery, accept)
    {
      var parsed := ParseQuery(rawQuery, stopWords);
      if parsed.Err? {
        return Err(parsed.error);
      }
      var matched := FindAllDocuments(parsed.value, accept);
      matched := SortByRank(matched);
      if |matched| > MAX_RESULT_DOCUMENT_COUNT {
        matched := matched[..MAX_RESULT_DOCUMENT_COUNT];
      }
      return Ok(matched);
    }

    /** The status overload; without a status it looks for actual documents. */
    method FindTopDocumentsByStatus(rawQuery: string, status: DocumentStatus := Actual)
      returns (r: Result<seq<Document>>)
      requires Valid()
      ensures r == TopDocuments(stopWords, State(), ln, rawQuery, StatusIs(status))
    {
      r := FindTopDocuments(rawQuery, StatusIs(status));
    }

    /** The plus words of the query the document contains, in set order, or
        none if it contains a minus word, with the document's status; parse
        errors come first, an unknown id is out of range. */
    method MatchDocument(rawQuery: string, id: int) returns (r: Result<(seq<string>, DocumentStatus)>)
      requires Valid()
      ensures QueryOf(rawQuery, stopWords).Err? ==> r == Err(QueryOf(rawQuery, stopWords).error)
      ensures QueryOf(rawQuery, stopWords).Ok? && id !in documents ==> r == Err(OutOfRange)
      ensures QueryOf(rawQuery, stopWords).Ok? && id in documents ==>
        && r.Ok? && r.value.1 == documents[id].status
        && StrictlyAscending(r.value.0)
        && (forall w :: w in r.value.0 <==> w in MatchedWords(State(), QueryOf(rawQuery, stopWords).value, id))
    {
      var parsed := ParseQuery(rawQuery, stopWords);
      if parsed.Err? {
        return Err(parsed.error);
      }
      var query := parsed.value;
      var matchedWords := MatchPlusWords(query.plusWords, id);
      var minus := query.minusWords;
      while minus != {}
        invariant minus <= query.minusWords
        invariant !ContainsSome(wordToDocumentFreqs, query.minusWords - minus, id)
        decreases minus
      {
        var word :| word in minus;
        if word in wordToDocumentFreqs && id in wordToDocumentFreqs[word] {
          matchedWords := [];
          break;
        }
        minus := minus - {word};
      }
      if id !in documents {
        return Err(OutOfRange);
      }
      return Ok((matchedWords, documents[id].status));
    }

    /** The plus-word loop of MatchDocument: the plus words indexed for the
        document, in set order. */
    method MatchPlusWords(plusWords: set<string>, id: int) returns (matchedWords: seq<string>)
      ensures StrictlyAscending(matchedWords)
      ensures forall w :: w in matchedWords <==> w in plusWords && Contains(wordToDocumentFreqs, w, id)
    {
      matchedWords := [];
      var plus := plusWords;
      while plus != {}
        invariant plus <= plusWords
        invariant StrictlyAscending(matchedWords)
        invariant forall i, w :: 0 <= i < |matchedWords| && w in plus ==> Less(matchedWords[i], w)
        invariant forall w :: w in matchedWords <==> w in plusWords - plus && Contains(wordToDocumentFreqs, w, id)
        decreases plus
      {
        FirstExists(plus);
        var word :| IsFirst(word, plus);
        plus := plus - {word};
        if word in wordToDocumentFreqs && id in wordToDocumentFreqs[word] {
          matchedWords := matchedWords + [word];
        }
        assert forall i, w :: 0 <= i < |matchedWords| && w in plus ==> Less(matchedWords[i], w) by {
          forall i, w | 0 <= i < |matchedWords| && w in plus
            ensures Less(matchedWords[i], w)
          {
            if matchedWords[i] != word {
              LessTransitive(matchedWords[i], word, w);
            }
          }
        }
      }
      assert plusWords - plus == plusWords;
    }
  }

  /** The inner loop of FindAllDocuments over the postings of one plus word:
      every document that passes gets the word's contribution added. */
  method ScorePostings(ghost corpus: Corpus, ln: real -> real, ghost done: set<string>, word: string,
                       postings: map<int, real>, documents: map<int, DocumentData>, inverseDocumentFreq: real,
                       accept: DocumentPredicate, relevance: map<int, real>)
    returns (next: map<int, real>)
    requires word in corpus.index && postings == corpus.index[word] && documents == corpus.documents
    requires PostingsNonEmpty(corpus.index) && postings.Keys <= documents.Keys
    requires inverseDocumentFreq == InverseDocumentFrequency(corpus, ln, word)
    requires PartlyScored(corpus, ln, done, word, {}, accept, relevance)
    ensures PartlyScored(corpus, ln, done, word, postings.Keys, accept, next)
  {
    next := relevance;
    var ids := postings.Keys;
    while ids != {}
      invariant ids <= postings.Keys
      invariant PartlyScored(corpus, ln, done, word, postings.Keys - ids, accept, next)
      decreases ids
    {
      var id := PickId(ids);
      ghost var seen := postings.Keys - ids;
      ids := ids - {id};
      assert postings.Keys - ids == seen + {id};
      var data := documents[id];
      if accept(id, data.status, data.rating) {
        var current := if id in next then next[id] else 0.0;
        var termFreq := postings[id];
        var updated := next[id := current + termFreq * inverseDocumentFreq];
        ScoringVisitPassing(corpus, ln, done, word, seen, accept, next, id, current, termFreq, inverseDocumentFreq,
                            updated);
        next := updated;
      } else {
        ScoringVisitFailing(corpus, ln, done, word, seen, accept, next, id);
      }
    }
  }

  /** Some element of a non-empty set of ids. */
  method PickId(ids: set<int>) returns (id: int)
    requires ids != {}
    ensures id in ids
  {
    if forall x :: x !in ids {
      assert false;
    }
    id :| id in ids;
  }
}
