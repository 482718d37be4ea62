/** Query parsing of the search server: ParseQueryWord and ParseQuery
    (search_server.h, duplicated in search_server.cpp). The stop-word set, a
    field of the server in the source, is passed explicitly. */
module Queries {
  import opened Errors
  import opened StringProcessing

  datatype QueryWord = QueryWord(data: string, isMinus: bool, isStop: bool)

  /** Plus and minus words; nothing forces the two sets apart. */
  datatype Query = Query(plusWords: set<string>, minusWords: set<string>)

  const EmptyQuery := Query({}, {})

  predicate StartsWithMinus(word: string)
  {
    |word| > 0 && word[0] == '-'
  }

  /** Strips one leading '-', then refuses an empty remainder, a second '-' or a
      control character. Reading the first character of an empty token sees the
      terminating '\0', which is not '-'. */
  function ParseQueryWord(text: string, stopWords: set<string>): (r: Result<QueryWord>)
    ensures r.Ok? ==> text == (if r.value.isMinus then "-" else "") + r.value.data
    ensures r.Ok? ==> r.value.data != "" && !StartsWithMinus(r.value.data) && IsValidWord(r.value.data)
    ensures r.Ok? ==> (r.value.isStop <==> r.value.data in stopWords)
    ensures r.Err? ==> r.error.InvalidQueryWord?
  {
    var isMinus := StartsWithMinus(text);
    var word := if isMinus then text[1..] else text;
    if word == [] || word[0] == '-' || !IsValidWord(word) then
      Err(InvalidQueryWord(word))
    else
      Ok(QueryWord(word, isMinus, word in stopWords))
  }

  /** The malformed tokens are exactly: the empty token, a lone "-", a token
      starting with "--", and a token holding a control character. */
  lemma ParseQueryWordFailsIff(text: string, stopWords: set<string>)
    ensures ParseQueryWord(text, stopWords).Err?
        <==> text == "" || text == "-" || (|text| >= 2 && text[0] == '-' && text[1] == '-') || !IsValidWord(text)
  {
    if StartsWithMinus(text) {
      var word := text[1..];
      assert IsValidWord(text) <==> IsValidWord(word) by {
        assert forall i :: 0 < i < |text| ==> text[i] == word[i - 1];
        assert forall i :: 0 <= i < |word| ==> word[i] == text[i + 1];
      }
    }
  }

  function AddQueryWord(query: Query, word: QueryWord): (updated: Query)
  {
    if word.isStop then query
    else if word.isMinus then query.(minusWords := query.minusWords + {word.data})
    else query.(plusWords := query.plusWords + {word.data})
  }

  /** Left-to-right processing of the tokens; the first malformed token aborts. */
  function ParseQueryFrom(query: Query, tokens: seq<string>, stopWords: set<string>): (r: Result<Query>)
    decreases |tokens|
  {
    if tokens == [] then Ok(query)
    else
      match ParseQueryWord(tokens[0], stopWords)
      case Err(e) => Err(e)
      case Ok(word) => ParseQueryFrom(AddQueryWord(query, word), tokens[1..], stopWords)
  }

  /** The query a raw query text denotes, tokens split on spaces and tabs. */
  function QueryOf(text: string, stopWords: set<string>): (r: Result<Query>)
  {
    ParseQueryFrom(EmptyQuery, Split(text, SpaceOrTab), stopWords)
  }

  method ParseQuery(text: string, stopWords: set<string>) returns (r: Result<Query>)
    ensures r == QueryOf(text, stopWords)
  {
    var words := SplitIntoWords(text);
    var query := EmptyQuery;
    var i := 0;
    while i < |words|
      invariant 0 <= i <= |words|
      invariant ParseQueryFrom(query, words[i..], stopWords) == QueryOf(text, stopWords)
    {
      var queryWord := ParseQueryWord(words[i], stopWords);
      assert words[i..][1..] == words[i + 1..];
      if queryWord.Err? {
        return Err(queryWord.error);
      }
      var word := queryWord.value;
      if !word.isStop {
        if word.isMinus {
          query := query.(minusWords := query.minusWords + {word.data});
        } else {
          query := query.(plusWords := query.plusWords + {word.data});
        }
      }
      i := i + 1;
    }
    return Ok(query);
  }

  // ----- What the parsed query contains -----

  /** A query text is refused exactly when one of its tokens is malformed. */
  lemma {:induction false} ParseQueryFailsIff(query: Query, tokens: seq<string>, stopWords: set<string>)
    ensures ParseQueryFrom(query, tokens, stopWords).Err?
        <==> exists i :: 0 <= i < |tokens| && ParseQueryWord(tokens[i], stopWords).Err?
    decreases |tokens|
  {
    if tokens != [] {
      var first := ParseQueryWord(tokens[0], stopWords);
      if first.Ok? {
        ParseQueryFailsIff(AddQueryWord(query, first.value), tokens[1..], stopWords);
        assert forall i :: 0 < i < |tokens| ==> tokens[i] == tokens[1..][i - 1];
      }
    }
  }

  /** A non-stop token lands among the plus words if it has no leading '-',
      and (stripped) among the minus words if it has one; stop words land in
      neither set; repeated tokens collapse. */
  lemma {:induction false} ParseQueryWords(query: Query, tokens: seq<string>, stopWords: set<string>)
    requires ParseQueryFrom(query, tokens, stopWords).Ok?
    ensures var q := ParseQueryFrom(query, tokens, stopWords).value;
      forall w ::
        && (w in q.plusWords <==> w in query.plusWords || (w in tokens && w !in stopWords && !StartsWithMinus(w)))
        && (w in q.minusWords <==> w in query.minusWords || ("-" + w in tokens && w !in stopWords))
    decreases |tokens|
  {
    if tokens != [] {
      var t := tokens[0];
      var word := ParseQueryWord(t, stopWords).value;
      var next := AddQueryWord(query, word);
      ParseQueryWords(next, tokens[1..], stopWords);
      assert forall s :: s in tokens <==> s == t || s in tokens[1..];
      forall w
        ensures (w == t && w !in stopWords && !StartsWithMinus(w)) <==> (!word.isStop && !word.isMinus && w == word.data)
        ensures ("-" + w == t && w !in stopWords) <==> (!word.isStop && word.isMinus && w == word.data)
      {
        if word.isMinus {
          assert t == "-" + word.data;
          if "-" + w == t {
            assert w == t[1..];
          }
        } else {
          assert t == word.data;
          assert ("-" + w)[0] == '-';
        }
      }
    }
  }

  /** Nothing keeps a word out of both sets: for any well-formed word w, the
      text "w -w" makes w a plus word and a minus word at once. */
  lemma PlusAndMinusMayOverlap(word: string)
    requires word != [] && !StartsWithMinus(word) && IsValidWord(word) && NoSeparator(word, SpaceOrTab)
    ensures QueryOf(word + [' ', '-'] + word, {}) == Ok(Query({word}, {word}))
  {
    var minusWord := ['-'] + word;
    SplitWordThenMinusWord(word);
    assert minusWord[1..] == word;
    assert ParseQueryWord(word, {}) == Ok(QueryWord(word, false, false));
    assert ParseQueryWord(minusWord, {}) == Ok(QueryWord(word, true, false));
    var tokens, rest := [word, minusWord], [minusWord];
    assert tokens[0] == word && tokens[1..] == rest;
    assert rest[0] == minusWord && rest[1..] == [];
    var afterFirst := AddQueryWord(EmptyQuery, QueryWord(word, false, false));
    assert afterFirst == Query({word}, {});
    var afterBoth := AddQueryWord(afterFirst, QueryWord(word, true, false));
    assert afterBoth == Query({word}, {word});
    assert ParseQueryFrom(afterBoth, [], {}) == Ok(afterBoth);
    assert ParseQueryFrom(afterFirst, rest, {}) == Ok(afterBoth);
    assert ParseQueryFrom(EmptyQuery, tokens, {}) == Ok(afterBoth);
  }

  lemma SplitWordThenMinusWord(word: string)
    requires word != [] && NoSeparator(word, SpaceOrTab)
    ensures Split(word + [' ', '-'] + word, SpaceOrTab) == [word, ['-'] + word]
  {
    var text := word + [' ', '-'] + word;
    var k := |word|;
    var minusWord := ['-'] + word;
    assert text[..k] == word && text[k] == ' ' && text[k + 1..] == minusWord;
    assert NoSeparator(minusWord, SpaceOrTab) by {
      assert forall i :: 0 < i < |minusWord| ==> minusWord[i] == word[i - 1];
    }
    SplitAtSeparator(text, k, SpaceOrTab);
    SplitWhole(minusWord, SpaceOrTab);
  }
}
