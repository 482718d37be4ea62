/** Tokenising and word validation: string_processing.cpp and string_processing.h. */
module StringProcessing {
  import opened Errors

  /** A character the source refuses inside a word: code 0 to 31. */
  predicate IsControl(c: char)
  {
    c < ' '
  }

  /** IsValidWord: no character of the word is a control character. */
  predicate IsValidWord(word: string)
  {
    forall i :: 0 <= i < |word| ==> !IsControl(word[i])
  }

  /** A word is valid iff none of its characters has a code from 0 to 31. */
  lemma ValidWordCodes(word: string)
    ensures IsValidWord(word) <==> forall c :: c in word ==> 32 <= c as int
  {
    if IsValidWord(word) {
      forall c | c in word
        ensures 32 <= c as int
      {
        var i :| 0 <= i < |word| && word[i] == c;
        assert !IsControl(word[i]);
      }
    } else {
      var i :| 0 <= i < |word| && IsControl(word[i]);
      assert word[i] in word && word[i] as int < 32;
    }
  }

  /** Validity is a property of each character: a concatenation is valid iff
      both parts are. */
  lemma ValidWordConcat(a: string, b: string)
    ensures IsValidWord(a + b) <==> IsValidWord(a) && IsValidWord(b)
  {
    if IsValidWord(a) && IsValidWord(b) {
      forall i | 0 <= i < |a + b|
        ensures !IsControl((a + b)[i])
      {
        if i >= |a| {
          assert (a + b)[i] == b[i - |a|];
        }
      }
    }
    if IsValidWord(a + b) {
      forall i | 0 <= i < |a|
        ensures !IsControl(a[i])
      {
        assert (a + b)[i] == a[i];
      }
      forall i | 0 <= i < |b|
        ensures !IsControl(b[i])
      {
        assert (a + b)[|a| + i] == b[i];
      }
    }
  }

  /** Separators of the SplitIntoWords in string_processing.cpp. */
  const SpaceOrTab: set<char> := {' ', '\t'}

  /** `strings[i]` is the first of the strings holding a control character. */
  predicate FirstInvalidAt(strings: seq<string>, i: int)
  {
    0 <= i < |strings| && !IsValidWord(strings[i]) && forall j :: 0 <= j < i ==> IsValidWord(strings[j])
  }

  predicate NoSeparator(word: string, separators: set<char>)
  {
    forall i :: 0 <= i < |word| ==> word[i] !in separators
  }

  // ----- Reference definition of splitting: the words are the maximal runs of non-separators -----

  /** `text` without its leading separators. */
  function DropSeparators(text: string, separators: set<char>): (rest: string)
    ensures |rest| <= |text|
    ensures rest != [] ==> rest[0] !in separators
  {
    if text != [] && text[0] in separators then DropSeparators(text[1..], separators) else text
  }

  /** The longest prefix of `text` holding no separator. */
  function TakeWord(text: string, separators: set<char>): (word: string)
    ensures |word| <= |text|
  {
    if text != [] && text[0] !in separators then [text[0]] + TakeWord(text[1..], separators) else []
  }

  /** The maximal runs of non-separator characters of `text`, left to right. */
  function Split(text: string, separators: set<char>): (words: seq<string>)
    decreases |text|
  {
    var rest := DropSeparators(text, separators);
    if rest == [] then []
    else
      var word := TakeWord(rest, separators);
      [word] + Split(rest[|word|..], separators)
  }

  lemma {:induction false} DropSeparatorsIsSuffix(text: string, separators: set<char>)
    ensures var rest := DropSeparators(text, separators);
      && rest == text[|text| - |rest|..]
      && forall i :: 0 <= i < |text| - |rest| ==> text[i] in separators
  {
    if text != [] && text[0] in separators {
      DropSeparatorsIsSuffix(text[1..], separators);
    }
  }

  lemma {:induction false} TakeWordIsPrefix(text: string, separators: set<char>)
    ensures var word := TakeWord(text, separators);
      && word == text[..|word|]
      && NoSeparator(word, separators)
      && (|word| < |text| ==> text[|word|] in separators)
  {
    if text != [] && text[0] !in separators {
      TakeWordIsPrefix(text[1..], separators);
    }
  }

  /** The first word, at the first non-separator of the text. */
  lemma SplitHead(text: string, separators: set<char>)
    requires Split(text, separators) != []
    ensures var rest := DropSeparators(text, separators);
      && rest != []
      && Split(text, separators) == [TakeWord(rest, separators)] + Split(rest[|TakeWord(rest, separators)|..], separators)
  {
  }

  /** Every word is non-empty and holds no separator. */
  lemma {:induction false} SplitWordsAreWords(text: string, separators: set<char>)
    ensures forall k :: 0 <= k < |Split(text, separators)| ==>
      Split(text, separators)[k] != [] && NoSeparator(Split(text, separators)[k], separators)
    decreases |text|
  {
    var words := Split(text, separators);
    if words != [] {
      var rest := DropSeparators(text, separators);
      var word := TakeWord(rest, separators);
      TakeWordIsPrefix(rest, separators);
      SplitWordsAreWords(rest[|word|..], separators);
      assert words == [word] + Split(rest[|word|..], separators);
    }
  }

  /** The characters of `text` that are not separators, in order. */
  function RemoveSeparators(text: string, separators: set<char>): (rest: string)
  {
    if text == [] then []
    else (if text[0] in separators then [] else [text[0]]) + RemoveSeparators(text[1..], separators)
  }

  function Concat(words: seq<string>): (text: string)
  {
    if words == [] then [] else words[0] + Concat(words[1..])
  }

  /** Number of positions holding a non-separator that starts a run: at the
      beginning of the text or right after a separator. */
  function RunStarts(text: string, separators: set<char>, afterSeparator: bool): (count: nat)
  {
    if text == [] then 0
    else if text[0] in separators then RunStarts(text[1..], separators, true)
    else (if afterSeparator then 1 else 0) + RunStarts(text[1..], separators, false)
  }

  function RunCount(text: string, separators: set<char>): (count: nat)
  {
    RunStarts(text, separators, true)
  }

  // ----- Step lemmas that the splitting loop follows -----

  lemma SplitAfterSeparator(text: string, separators: set<char>)
    requires text != [] && text[0] in separators
    ensures Split(text, separators) == Split(text[1..], separators)
  {
  }

  lemma {:induction false} TakeWordPrefix(text: string, k: nat, separators: set<char>)
    requires k <= |text| && NoSeparator(text[..k], separators)
    requires k == |text| || text[k] in separators
    ensures TakeWord(text, separators) == text[..k]
  {
    if k > 0 {
      assert text[0] == text[..k][0];
      assert text[1..][..k - 1] == text[..k][1..];
      TakeWordPrefix(text[1..], k - 1, separators);
      assert text[..k] == [text[0]] + text[1..][..k - 1];
    }
  }

  /** A word of length k followed by a separator. */
  lemma SplitAtSeparator(text: string, k: nat, separators: set<char>)
    requires 0 < k < |text| && NoSeparator(text[..k], separators) && text[k] in separators
    ensures Split(text, separators) == [text[..k]] + Split(text[k + 1..], separators)
  {
    assert text[0] == text[..k][0];
    assert DropSeparators(text, separators) == text;
    TakeWordPrefix(text, k, separators);
    SplitAfterSeparator(text[k..], separators);
    assert text[k..][1..] == text[k + 1..];
  }

  /** A text that is a single word. */
  lemma SplitWhole(text: string, separators: set<char>)
    requires text != [] && NoSeparator(text, separators)
    ensures Split(text, separators) == [text]
  {
    assert text[0] !in separators;
    assert DropSeparators(text, separators) == text;
    assert text[..|text|] == text;
    TakeWordPrefix(text, |text|, separators);
    assert text[|text|..] == [];
    assert Split([], separators) == [];
  }

  // ----- The loop of SplitIntoWords -----

  /** The character loop shared by both SplitIntoWords variants: a separator
      closes the word being built (if any), any other character extends it. */
  method SplitBy(text: string, separators: set<char>) returns (words: seq<string>)
    ensures words == Split(text, separators)
  {
    words := [];
    var word: string := [];
    var i := 0;
    while i < |text|
      invariant i <= |text|
      invariant words + ScanWords(text, i, word, separators) == ScanWords(text, 0, [], separators)
    {
      var c := text[i];
      if c in separators {
        if word != [] {
          assert words + ([word] + ScanWords(text, i + 1, [], separators))
            == (words + [word]) + ScanWords(text, i + 1, [], separators);
          words := words + [word];
          word := [];
        }
      } else {
        word := word + [c];
      }
      i := i + 1;
    }
    if word != [] {
      words := words + [word];
    }
    ScanWordsIsSplit(text, 0, [], separators);
    assert [] + text[0..] == text;
  }

  /** The words SplitBy still emits from position i when `word` has been read
      since the last separator: the loop of the source, one character per step. */
  function ScanWords(text: string, i: nat, word: string, separators: set<char>): (words: seq<string>)
    requires i <= |text|
    decreases |text| - i
  {
    if i == |text| then (if word == [] then [] else [word])
    else if text[i] in separators then (if word == [] then [] else [word]) + ScanWords(text, i + 1, [], separators)
    else ScanWords(text, i + 1, word + [text[i]], separators)
  }

  /** The loop computes Split: scanning from i with the pending word `word`
      splits word + text[i..]. */
  lemma {:induction false} ScanWordsIsSplit(text: string, i: nat, word: string, separators: set<char>)
    requires i <= |text| && NoSeparator(word, separators)
    ensures ScanWords(text, i, word, separators) == Split(word + text[i..], separators)
    decreases |text| - i
  {
    if i == |text| {
      assert word + text[i..] == word;
      if word != [] {
        SplitWhole(word, separators);
      }
    } else if text[i] in separators {
      ScanWordsIsSplit(text, i + 1, [], separators);
      assert [] + text[i + 1..] == text[i + 1..];
      if word != [] {
        SplitWordAtSeparator(word, text, i, separators);
      } else {
        assert word + text[i..] == text[i..];
        SplitSkipsSeparator(text, i, separators);
      }
    } else {
      ScanWordsIsSplit(text, i + 1, word + [text[i]], separators);
      assert (word + [text[i]]) + text[i + 1..] == word + text[i..];
    }
  }

  /** Loop step of SplitBy: a separator with no word before it is skipped. */
  lemma SplitWordAtSeparator(word: string, text: string, i: nat, separators: set<char>)
    requires word != [] && NoSeparator(word, separators) && i < |text| && text[i] in separators
    ensures Split(word + text[i..], separators) == [word] + Split(text[i + 1..], separators)
  {
    var whole := word + text[i..];
    assert whole[..|word|] == word && whole[|word|] == text[i];
    SplitAtSeparator(whole, |word|, separators);
    assert whole[|word| + 1..] == text[i + 1..];
  }

  lemma SplitSkipsSeparator(text: string, i: nat, separators: set<char>)
    requires i < |text| && text[i] in separators
    ensures Split(text[i..], separators) == Split(text[i + 1..], separators)
  {
    SplitAfterSeparator(text[i..], separators);
    assert text[i..][1..] == text[i + 1..];
  }

  /** SplitIntoWords of string_processing.cpp: splits on spaces and tabs. */
  method SplitIntoWords(text: string) returns (words: seq<string>)
    ensures words == Split(text, SpaceOrTab)
  {
    words := SplitBy(text, SpaceOrTab);
  }

  // ----- What splitting promises -----

  lemma {:induction false} RemoveSeparatorsAppend(a: string, b: string, separators: set<char>)
    ensures RemoveSeparators(a + b, separators) == RemoveSeparators(a, separators) + RemoveSeparators(b, separators)
  {
    if a == [] {
      assert a + b == b;
    } else {
      assert (a + b)[0] == a[0] && (a + b)[1..] == a[1..] + b;
      RemoveSeparatorsAppend(a[1..], b, separators);
    }
  }

  lemma {:induction false} RemoveSeparatorsOfSeparators(text: string, separators: set<char>)
    requires forall i :: 0 <= i < |text| ==> text[i] in separators
    ensures RemoveSeparators(text, separators) == []
  {
    if text != [] {
      RemoveSeparatorsOfSeparators(text[1..], separators);
    }
  }

  lemma {:induction false} RemoveSeparatorsOfWord(word: string, separators: set<char>)
    requires NoSeparator(word, separators)
    ensures RemoveSeparators(word, separators) == word
  {
    if word != [] {
      RemoveSeparatorsOfWord(word[1..], separators);
    }
  }

  /** Concatenating the words gives back the text with every separator removed. */
  lemma {:induction false} SplitConcat(text: string, separators: set<char>)
    ensures Concat(Split(text, separators)) == RemoveSeparators(text, separators)
    decreases |text|
  {
    var rest := DropSeparators(text, separators);
    RemoveLeadingSeparators(text, separators);
    if rest != [] {
      var word := TakeWord(rest, separators);
      var tail := rest[|word|..];
      RemoveSeparatorsAroundWord(rest, separators);
      SplitConcat(tail, separators);
      var words := Split(text, separators);
      assert words == [word] + Split(tail, separators);
      assert words[1..] == Split(tail, separators);
    }
  }

  lemma RemoveLeadingSeparators(text: string, separators: set<char>)
    ensures RemoveSeparators(text, separators) == RemoveSeparators(DropSeparators(text, separators), separators)
  {
    var rest := DropSeparators(text, separators);
    var skipped := text[..|text| - |rest|];
    DropSeparatorsIsSuffix(text, separators);
    assert text == skipped + rest;
    RemoveSeparatorsAppend(skipped, rest, separators);
    RemoveSeparatorsOfSeparators(skipped, separators);
  }

  lemma RemoveSeparatorsAroundWord(rest: string, separators: set<char>)
    requires rest != []
    ensures var word := TakeWord(rest, separators);
      RemoveSeparators(rest, separators) == word + RemoveSeparators(rest[|word|..], separators)
  {
    var word := TakeWord(rest, separators);
    var tail := rest[|word|..];
    TakeWordIsPrefix(rest, separators);
    assert rest == word + tail;
    RemoveSeparatorsAppend(word, tail, separators);
    RemoveSeparatorsOfWord(word, separators);
  }

  lemma {:induction false} RunStartsSkipsSeparators(skipped: string, rest: string, separators: set<char>)
    requires forall i :: 0 <= i < |skipped| ==> skipped[i] in separators
    ensures RunStarts(skipped + rest, separators, true) == RunStarts(rest, separators, true)
  {
    if skipped == [] {
      assert skipped + rest == rest;
    } else {
      assert (skipped + rest)[0] == skipped[0] && (skipped + rest)[1..] == skipped[1..] + rest;
      RunStartsSkipsSeparators(skipped[1..], rest, separators);
    }
  }

  lemma {:induction false} RunStartsOverWord(word: string, rest: string, separators: set<char>, afterSeparator: bool)
    requires word != [] && NoSeparator(word, separators)
    ensures RunStarts(word + rest, separators, afterSeparator)
         == (if afterSeparator then 1 else 0) + RunStarts(rest, separators, false)
  {
    assert (word + rest)[1..] == word[1..] + rest;
    if word[1..] != [] {
      RunStartsOverWord(word[1..], rest, separators, false);
    }
  }

  /** There are as many words as maximal runs of non-separators. */
  lemma {:induction false} SplitCountsRuns(text: string, separators: set<char>)
    ensures |Split(text, separators)| == RunCount(text, separators)
    decreases |text|
  {
    var rest := DropSeparators(text, separators);
    var skipped := text[..|text| - |rest|];
    DropSeparatorsIsSuffix(text, separators);
    assert text == skipped + rest;
    RunStartsSkipsSeparators(skipped, rest, separators);
    if rest != [] {
      var word := TakeWord(rest, separators);
      var tail := rest[|word|..];
      TakeWordIsPrefix(rest, separators);
      assert rest == word + tail;
      RunStartsOverWord(word, tail, separators, true);
      assert RunStarts(tail, separators, false) == RunStarts(tail, separators, true);
      SplitCountsRuns(tail, separators);
    }
  }

  /** Text made only of separators (or empty) has no words. */
  lemma SplitOfSeparatorsIsEmpty(text: string, separators: set<char>)
    requires forall i :: 0 <= i < |text| ==> text[i] in separators
    ensures Split(text, separators) == []
  {
    DropSeparatorsIsSuffix(text, separators);
  }

  // ----- Validity of the words of a text -----

  lemma {:induction false} InConcat(words: seq<string>, c: char)
    ensures c in Concat(words) <==> exists k :: 0 <= k < |words| && c in words[k]
  {
    if words != [] {
      InConcat(words[1..], c);
      assert forall k :: 0 < k < |words| ==> words[k] == words[1..][k - 1];
      if c in Concat(words[1..]) {
        var k :| 0 <= k < |words[1..]| && c in words[1..][k];
        assert c in words[k + 1];
      }
    }
  }

  lemma {:induction false} InRemoveSeparators(text: string, separators: set<char>, c: char)
    ensures c in RemoveSeparators(text, separators) <==> c in text && c !in separators
  {
    if text != [] {
      InRemoveSeparators(text[1..], separators, c);
      assert text == [text[0]] + text[1..];
    }
  }

  /** Some word of `text` is invalid exactly when `text` holds a control
      character that is not a separator. */
  lemma SomeWordInvalidIff(text: string, separators: set<char>)
    ensures (exists k :: 0 <= k < |Split(text, separators)| && !IsValidWord(Split(text, separators)[k]))
        <==> (exists i :: 0 <= i < |text| && IsControl(text[i]) && text[i] !in separators)
  {
    var words := Split(text, separators);
    SplitConcat(text, separators);
    if exists k :: 0 <= k < |words| && !IsValidWord(words[k]) {
      var k :| 0 <= k < |words| && !IsValidWord(words[k]);
      var j :| 0 <= j < |words[k]| && IsControl(words[k][j]);
      var c := words[k][j];
      InConcat(words, c);
      InRemoveSeparators(text, separators, c);
    }
    if exists i :: 0 <= i < |text| && IsControl(text[i]) && text[i] !in separators {
      var i :| 0 <= i < |text| && IsControl(text[i]) && text[i] !in separators;
      var c := text[i];
      InRemoveSeparators(text, separators, c);
      InConcat(words, c);
      var k :| 0 <= k < |words| && c in words[k];
      assert !IsValidWord(words[k]);
    }
  }

  // ----- MakeUniqueNonEmptyStrings (string_processing.h) -----

  /** The set of non-empty strings of `strings`, duplicates collapsed. */
  function NonEmptyStrings(strings: seq<string>): (nonEmpty: set<string>)
  {
    set i | 0 <= i < |strings| && strings[i] != [] :: strings[i]
  }

  method MakeUniqueNonEmptyStrings(strings: seq<string>) returns (r: Result<set<string>>)
    ensures r.Err? <==> exists i :: 0 <= i < |strings| && !IsValidWord(strings[i])
    ensures r.Err? ==> r.error == IllegalStopWords
    ensures r.Ok? ==> r.value == NonEmptyStrings(strings)
    ensures r.Ok? ==> "" !in r.value
  {
    var nonEmptyStrings: set<string> := {};
    var i := 0;
    while i < |strings|
      invariant 0 <= i <= |strings|
      invariant forall k :: 0 <= k < i ==> IsValidWord(strings[k])
      invariant nonEmptyStrings == NonEmptyStrings(strings[..i])
    {
      var str := strings[i];
      if !IsValidWord(str) {
        return Err(IllegalStopWords);
      }
      if str != [] {
        nonEmptyStrings := nonEmptyStrings + {str};
      }
      assert strings[..i + 1] == strings[..i] + [str];
      i := i + 1;
    }
    assert strings[..i] == strings;
    return Ok(nonEmptyStrings);
  }

  /** Feeding the result back in (in any order, with any repetitions) gives the
      same set and cannot fail. */
  lemma MakeUniqueNonEmptyStringsIdempotent(strings: seq<string>, again: seq<string>)
    requires forall i :: 0 <= i < |strings| ==> IsValidWord(strings[i])
    requires forall s :: s in again <==> s in NonEmptyStrings(strings)
    ensures forall i :: 0 <= i < |again| ==> IsValidWord(again[i])
    ensures NonEmptyStrings(again) == NonEmptyStrings(strings)
  {
    forall i | 0 <= i < |again|
      ensures IsValidWord(again[i])
    {
      assert again[i] in NonEmptyStrings(strings);
    }
    forall s | s in NonEmptyStrings(strings)
      ensures s in NonEmptyStrings(again)
    {
      assert s in again;
      var i :| 0 <= i < |again| && again[i] == s;
    }
  }
}
