/** The SplitIntoWords of read_input_functions.cpp, which splits on spaces only. */
module ReadInputFunctions {
  import opened StringProcessing

  const Space: set<char> := {' '}

  method SplitIntoWords(text: string) returns (words: seq<string>)
    ensures words == Split(text, Space)
  {
    words := SplitBy(text, Space);
  }

  /** Only spaces separate: a tab, or any other character, of the text ends up
      inside some word, and no word holds a space. */
  lemma SplitOnSpacesKeepsOtherCharacters(text: string, c: char)
    requires c != ' ' && c in text
    ensures exists k :: 0 <= k < |Split(text, Space)| && c in Split(text, Space)[k]
    ensures forall k :: 0 <= k < |Split(text, Space)| ==> ' ' !in Split(text, Space)[k]
  {
    var words := Split(text, Space);
    SplitConcat(text, Space);
    InRemoveSeparators(text, Space, c);
    InConcat(words, c);
    SplitWordsAreWords(text, Space);
    forall k | 0 <= k < |words|
      ensures ' ' !in words[k]
    {
      assert NoSeparator(words[k], Space);
    }
  }
}
