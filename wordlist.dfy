/**
 * `get_dict_words` (zembu.py:85-109): turns the lines of a dictionary file
 * into the candidate words and, for annotated files, each word's extra fields.
 * The file itself is not read here: the model receives its lines.
 */
module WordList {
  import opened Wrappers
  import opened Text
  import opened Ordering

  /** The pair `[words, word_info]` the loader returns. */
  datatype WordList = WordList(words: seq<string>, wordInfo: seq<seq<string>>)

  /** `words[0]` on a file without lines raises IndexError. */
  datatype LoadError = EmptyFile

  /** What happens to every line first: surrounding whitespace is removed, then the line is lower-cased. */
  function Normalize(line: string): string {
    Lower(Strip(line))
  }

  function NormalizeAll(lines: seq<string>): (r: seq<string>)
    ensures |r| == |lines|
  {
    seq(|lines|, i requires 0 <= i < |lines| => Normalize(lines[i]))
  }

  /** Annotated mode: each line is `word;field;field...`, kept in order, blank lines included. */
  function Annotated(normalized: seq<string>): WordList {
    WordList(
      seq(|normalized|, i requires 0 <= i < |normalized| => Split(normalized[i], ';')[0]),
      seq(|normalized|, i requires 0 <= i < |normalized| => Split(normalized[i], ';')[1..]))
  }

  /** `filter(None, words)`: drops the empty strings, keeps the order. */
  function NonEmpty(xs: seq<string>): (r: seq<string>)
    ensures forall y :: y in r <==> y in xs && y != []
  {
    if xs == [] then []
    else if xs[|xs| - 1] == [] then NonEmpty(xs[..|xs| - 1])
    else NonEmpty(xs[..|xs| - 1]) + [xs[|xs| - 1]]
  }

  /** Bare mode: the non-empty lines, deduplicated and sorted, with no extra fields. */
  function Vocabulary(normalized: seq<string>): WordList {
    WordList(SortUnique(NonEmpty(normalized)), [])
  }

  /** The loader as a whole; the mode is chosen by the first normalized line alone. */
  function ParseDict(lines: seq<string>): Result<WordList, LoadError> {
    if |lines| == 0 then Failure(EmptyFile)
    else
      var normalized := NormalizeAll(lines);
      if ';' in normalized[0] then Success(Annotated(normalized)) else Success(Vocabulary(normalized))
  }

  /** The annotated mode's loop (zembu.py:98-103): split each line, append word and fields. */
  method SplitAnnotated(words: seq<string>) returns (newWords: seq<string>, wordInfo: seq<seq<string>>)
    ensures WordList(newWords, wordInfo) == Annotated(words)
  {
    newWords, wordInfo := [], [];
    for i := 0 to |words|
      invariant |newWords| == i && |wordInfo| == i
      invariant forall k :: 0 <= k < i ==> newWords[k] == Split(words[k], ';')[0]
      invariant forall k :: 0 <= k < i ==> wordInfo[k] == Split(words[k], ';')[1..]
    {
      var slices := Split(words[i], ';');
      newWords := newWords + [slices[0]];
      wordInfo := wordInfo + [slices[1..]];
    }
  }

  /** The loader as the script runs it: normalize, pick the mode, then loop or sort. */
  method GetDictWords(lines: seq<string>) returns (r: Result<WordList, LoadError>)
    ensures r == ParseDict(lines)
  {
    if |lines| == 0 {
      return Failure(EmptyFile);
    }
    var words := NormalizeAll(lines);
    if ';' in words[0] {
      var newWords, wordInfo := SplitAnnotated(words);
      r := Success(WordList(newWords, wordInfo));
    } else {
      r := Success(Vocabulary(words));
    }
  }

  /** An empty line list is the only input the loader rejects. */
  lemma EmptyInputIsError(lines: seq<string>)
    ensures ParseDict(lines).Failure? <==> lines == []
  {
  }

  /**
   * Bare mode: the words are strictly ascending (sorted, no duplicates), hold
   * no empty string, are exactly the non-empty normalized lines, and carry no
   * extra fields.
   */
  lemma BareModeOutput(lines: seq<string>)
    requires lines != [] && ';' !in Normalize(lines[0])
    ensures ParseDict(lines).Success?
    ensures var wl := ParseDict(lines).value;
      && StrictlyAscending(wl.words)
      && [] !in wl.words
      && (forall w :: w in wl.words <==> w != [] && exists i :: 0 <= i < |lines| && Normalize(lines[i]) == w)
      && wl.wordInfo == []
  {
    var normalized := NormalizeAll(lines);
    assert normalized[0] == Normalize(lines[0]);
    var wl := ParseDict(lines).value;
    assert wl.words == SortUnique(NonEmpty(normalized));
    forall w ensures w in wl.words <==> w != [] && exists i :: 0 <= i < |lines| && Normalize(lines[i]) == w {
      if w in normalized {
        var i :| 0 <= i < |normalized| && normalized[i] == w;
        assert Normalize(lines[i]) == w;
      }
      if exists i :: 0 <= i < |lines| && Normalize(lines[i]) == w {
        var i :| 0 <= i < |lines| && Normalize(lines[i]) == w;
        assert normalized[i] == w;
      }
    }
  }

  /**
   * Bare mode ignores the order and the repetitions of the lines: two files
   * whose normalized lines form the same set give the same word list.
   */
  lemma BareModeIgnoresOrder(a: seq<string>, b: seq<string>)
    requires a != [] && ';' !in Normalize(a[0])
    requires b != [] && ';' !in Normalize(b[0])
    requires forall w :: w in NormalizeAll(a) <==> w in NormalizeAll(b)
    ensures ParseDict(a) == ParseDict(b)
  {
    var na, nb := NormalizeAll(a), NormalizeAll(b);
    assert na[0] == Normalize(a[0]) && nb[0] == Normalize(b[0]);
    AscendingUnique(SortUnique(NonEmpty(na)), SortUnique(NonEmpty(nb)));
  }

  /**
   * Annotated mode: one word per line, in line order; neither the word nor
   * any of its fields holds a semicolon, and the word followed by its fields,
   * joined with semicolons, gives back the normalized line. Together these
   * make the word the first semicolon-separated field of the line and its
   * fields exactly the remaining ones (see Text.SplitJoin).
   */
  lemma AnnotatedModeOutput(lines: seq<string>)
    requires lines != [] && ';' in Normalize(lines[0])
    ensures ParseDict(lines).Success?
    ensures var wl := ParseDict(lines).value;
      && |wl.words| == |wl.wordInfo| == |lines|
      && forall i :: 0 <= i < |lines| ==>
           && ';' !in wl.words[i]
           && (forall f :: f in wl.wordInfo[i] ==> ';' !in f)
           && Join(";", [wl.words[i]] + wl.wordInfo[i]) == Normalize(lines[i])
  {
    var normalized := NormalizeAll(lines);
    assert normalized[0] == Normalize(lines[0]);
    var wl := ParseDict(lines).value;
    forall i | 0 <= i < |lines|
      ensures ';' !in wl.words[i] && (forall f :: f in wl.wordInfo[i] ==> ';' !in f)
      ensures Join(";", [wl.words[i]] + wl.wordInfo[i]) == Normalize(lines[i])
    {
      var fields := Split(normalized[i], ';');
      assert [fields[0]] + fields[1..] == fields;
      JoinSplit(normalized[i], ';');
    }
  }

  /**
   * Annotated mode keeps blank lines (as the word "" with no fields) and
   * gives a line without semicolon the whole line as its word and no fields.
   */
  lemma AnnotatedModePlainLine(lines: seq<string>, i: nat)
    requires lines != [] && ';' in Normalize(lines[0])
    requires i < |lines| && ';' !in Normalize(lines[i])
    ensures ParseDict(lines).Success?
    ensures var wl := ParseDict(lines).value;
      i < |wl.words| && i < |wl.wordInfo| && wl.words[i] == Normalize(lines[i]) && wl.wordInfo[i] == []
  {
    var normalized := NormalizeAll(lines);
    assert normalized[0] == Normalize(lines[0]);
    SplitNoSeparator(normalized[i], ';');
  }

  /** A bare-mode list with any word has no fields for it (see Batch.CheckDomains). */
  lemma BareModeLacksInfo(lines: seq<string>)
    requires lines != [] && ';' !in Normalize(lines[0])
    requires exists i :: 0 <= i < |lines| && Normalize(lines[i]) != []
    ensures ParseDict(lines).Success?
    ensures |ParseDict(lines).value.wordInfo| < |ParseDict(lines).value.words|
  {
    BareModeOutput(lines);
    var i :| 0 <= i < |lines| && Normalize(lines[i]) != [];
    assert Normalize(lines[i]) in ParseDict(lines).value.words;
  }
}
