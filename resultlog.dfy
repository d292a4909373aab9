/**
 * The text `log_output` (zembu.py:165-187) writes to the log file: a header
 * with the UTC time, the pretty-printed settings, a separator line and the
 * available domains one per line. The clock reading and `pprint.pformat`
 * are parameters; opening and writing the file is not modelled.
 */
module ResultLog {
  import opened Text
  import Batch

  /** The `settings` dict; `options` stands for the parsed command-line arguments. */
  datatype Settings = Settings(
    version: string, duration: int, checked: nat, words: nat, available: nat, options: map<string, string>)

  function MakeSettings(version: string, amount: nat, available: seq<string>, words: seq<string>,
                        duration: int, options: map<string, string>): Settings
  {
    Settings(version, duration, amount, |words|, |available|, options)
  }

  /** The first line of the log: the script's name, the UTC time of the run and a colon. */
  function Header(timestamp: string): string {
    "zembu.py: " + timestamp + " UTC:\n"
  }

  /** The separator line between the settings and the domains. */
  const Dashes: string := "----"

  /** The separator line with the line breaks around it. */
  const Separator: string := ['\n'] + Dashes + ['\n']

  /** The whole file content; `format` is `pprint.pformat`. */
  function LogText(version: string, amount: nat, available: seq<string>, words: seq<string>, duration: int,
                   options: map<string, string>, timestamp: string, format: Settings -> string): (text: string)
    ensures |Header(timestamp)| <= |text| && text[..|Header(timestamp)|] == Header(timestamp)
    ensures text[|text| - 1] == '\n'
  {
    var settings := MakeSettings(version, amount, available, words, duration, options);
    Header(timestamp) + format(settings) + Separator + Join("\n", available) + ['\n']
  }

  /** Position of the last `x` in `lines`, or -1. */
  function LastIndexOf(lines: seq<string>, x: string): (r: int)
    ensures -1 <= r < |lines|
    ensures r >= 0 ==> lines[r] == x
    ensures forall k :: r < k < |lines| ==> lines[k] != x
  {
    if lines == [] then -1
    else if lines[|lines| - 1] == x then |lines| - 1
    else LastIndexOf(lines[..|lines| - 1], x)
  }

  /**
   * Reads the available domains back from a log text: the lines between the
   * last "----" line and the final newline.
   */
  function LoggedAvailable(text: string): seq<string> {
    AvailableLines(Split(text, '\n'))
  }

  /** The lines after the last "----" line, without the final (empty) one. */
  function AvailableLines(lines: seq<string>): seq<string> {
    var k := LastIndexOf(lines, Dashes);
    if k < 0 || k + 1 > |lines| - 1 then []
    else
      var body := lines[k + 1 .. |lines| - 1];
      if body == [[]] then [] else body
  }

  lemma LastIndexOfBefore(prefix: seq<string>, x: string, suffix: seq<string>)
    requires x !in suffix
    ensures LastIndexOf(prefix + [x] + suffix, x) == |prefix|
  {
    var lines := prefix + [x] + suffix;
    assert lines[|prefix|] == x;
  }

  /** A final line break adds one empty line. */
  lemma SplitFinalNewline(a: string)
    ensures Split(a + ['\n'], '\n') == Split(a, '\n') + [[]]
  {
    assert a + ['\n'] == a + ['\n'] + [];
    SplitAround(a, [], '\n');
  }

  /** The separator line is a line of its own. */
  lemma SplitSeparatorLine(b: string)
    ensures Split(Dashes + ['\n'] + b, '\n') == [Dashes] + Split(b, '\n')
  {
    SplitAround(Dashes, b, '\n');
    SplitNoSeparator(Dashes, '\n');
  }

  /** The lines of a log text: the head's, the separator line, the list's, and the empty rest. */
  lemma LogLines(head: string, joined: string)
    ensures Split(head + Separator + joined + ['\n'], '\n') == Split(head, '\n') + [Dashes] + Split(joined, '\n') + [[]]
  {
    var last := joined + ['\n'];
    var rest := Dashes + ['\n'] + last;
    assert head + Separator + joined + ['\n'] == head + ['\n'] + rest;
    SplitAround(head, rest, '\n');
    SplitSeparatorLine(last);
    SplitFinalNewline(joined);
  }

  /** The newline-joined list splits back into the list; an empty list gives one empty line. */
  lemma ListLines(available: seq<string>)
    requires forall k :: 0 <= k < |available| ==> '\n' !in available[k]
    ensures Split(Join("\n", available), '\n') == if available == [] then [[]] else available
  {
    if available != [] {
      SplitJoin(available, '\n');
    }
  }

  /** The lines after the separator line, up to the final empty one, are what is read back. */
  lemma LinesAfterSeparator(before: seq<string>, middle: seq<string>)
    requires Dashes !in middle
    ensures AvailableLines(before + [Dashes] + middle + [[]]) == if middle == [[]] then [] else middle
  {
    var lines := before + [Dashes] + middle + [[]];
    assert Dashes != [];
    assert lines == before + [Dashes] + (middle + [[]]);
    LastIndexOfBefore(before, Dashes, middle + [[]]);
    assert lines[|before| + 1 .. |lines| - 1] == middle;
  }

  /** A text laid out as head, separator, list text and final newline reads back as the list text's lines. */
  lemma ReadBack(head: string, joined: string)
    requires Dashes !in Split(joined, '\n')
    ensures LoggedAvailable(head + Separator + joined + ['\n'])
         == if Split(joined, '\n') == [[]] then [] else Split(joined, '\n')
  {
    LogLines(head, joined);
    LinesAfterSeparator(Split(head, '\n'), Split(joined, '\n'));
  }

  /**
   * The log keeps the list of available domains recoverable: as long as no
   * entry is empty, is "----" or holds a line break (true of every entry
   * Batch.Entry builds), reading the written text back gives the list, in order,
   * whatever the timestamp and the settings dump look like.
   */
  lemma LogRoundTrip(version: string, amount: nat, available: seq<string>, words: seq<string>, duration: int,
                     options: map<string, string>, timestamp: string, format: Settings -> string)
    requires forall k :: 0 <= k < |available| ==> '\n' !in available[k] && available[k] != [] && available[k] != Dashes
    ensures LoggedAvailable(LogText(version, amount, available, words, duration, options, timestamp, format)) == available
  {
    ListLines(available);
    if available != [] {
      assert available[0] != [];
      assert Dashes !in available;
    }
    ReadBack(Header(timestamp) + format(MakeSettings(version, amount, available, words, duration, options)),
             Join("\n", available));
  }

  /** Every field a report entry is built from is free of line breaks. */
  predicate OneLine(c: Batch.Candidate) {
    '\n' !in c.domain && forall f :: f in c.info ==> '\n' !in f
  }

  /** An entry built from one-line parts is a non-empty line that is not the separator. */
  lemma EntryIsLoggable(c: Batch.Candidate)
    requires OneLine(c)
    ensures '\n' !in Batch.Entry(c) && Batch.Entry(c) != [] && Batch.Entry(c) != Dashes
  {
    JoinAvoids(", ", c.info, '\n');
    var e := Batch.Entry(c);
    assert e == c.domain + " (" + Join(", ", c.info) + ")";
    assert e[|c.domain| + 1] == '(';
  }

  lemma {:induction false} CandidatesAreOneLine(words: seq<string>, wordInfo: seq<seq<string>>, tlds: seq<string>, n: nat)
    requires n <= |words| && n <= |wordInfo|
    requires forall i :: 0 <= i < |words| ==> '\n' !in words[i]
    requires forall i :: 0 <= i < |tlds| ==> '\n' !in tlds[i]
    requires forall i, f :: 0 <= i < |wordInfo| && f in wordInfo[i] ==> '\n' !in f
    ensures forall k :: 0 <= k < |Batch.Candidates(words, wordInfo, tlds, n)| ==> OneLine(Batch.Candidates(words, wordInfo, tlds, n)[k])
  {
    if n > 0 {
      CandidatesAreOneLine(words, wordInfo, tlds, n - 1);
      var prefix := Batch.Candidates(words, wordInfo, tlds, n - 1);
      var row := Batch.Row(words[n - 1], wordInfo[n - 1], tlds, |tlds|);
      forall j | 0 <= j < |row| ensures OneLine(row[j]) {
        Batch.RowAt(words[n - 1], wordInfo[n - 1], tlds, |tlds|, j);
        var whole := words[n - 1] + "." + tlds[j];
        assert '\n' !in whole;
        assert forall k :: 0 <= k < |whole| ==> Lower(whole)[k] != '\n';
      }
    }
  }

  /**
   * End to end: when no word, TLD or annotation field holds a line break,
   * the available list of a completed run reads back unchanged from its log.
   */
  lemma RunRoundTrip(words: seq<string>, wordInfo: seq<seq<string>>, tlds: seq<string>, isAvailable: string -> bool,
                     version: string, duration: int, options: map<string, string>, timestamp: string,
                     format: Settings -> string)
    requires |wordInfo| >= |words|
    requires forall i :: 0 <= i < |words| ==> '\n' !in words[i]
    requires forall i :: 0 <= i < |tlds| ==> '\n' !in tlds[i]
    requires forall i, f :: 0 <= i < |wordInfo| && f in wordInfo[i] ==> '\n' !in f
    ensures Batch.Batch(words, wordInfo, tlds, isAvailable).Success?
    ensures var summary := Batch.Batch(words, wordInfo, tlds, isAvailable).value;
      LoggedAvailable(LogText(version, summary.amount, summary.available, words, duration, options, timestamp, format))
        == summary.available
  {
    var cands := Batch.Candidates(words, wordInfo, tlds, |words|);
    var available := Batch.Report(cands, isAvailable);
    CandidatesAreOneLine(words, wordInfo, tlds, |words|);
    forall k | 0 <= k < |available|
      ensures '\n' !in available[k] && available[k] != [] && available[k] != Dashes
    {
      Batch.ReportMembership(cands, isAvailable, available[k]);
      var j :| 0 <= j < |cands| && isAvailable(cands[j].domain) && Batch.Entry(cands[j]) == available[k];
      EntryIsLoggable(cands[j]);
    }
    var summary := Batch.Batch(words, wordInfo, tlds, isAvailable).value;
    LogRoundTrip(version, summary.amount, summary.available, words, duration, options, timestamp, format);
  }

  /**
   * The settings written after a completed run agree with it: `checked` is
   * the number of word and TLD pairs, `available` counts the listed domains
   * and never exceeds `checked`.
   */
  lemma SettingsOfRun(words: seq<string>, wordInfo: seq<seq<string>>, tlds: seq<string>,
                      isAvailable: string -> bool, version: string, duration: int, options: map<string, string>)
    requires |wordInfo| >= |words|
    ensures Batch.Batch(words, wordInfo, tlds, isAvailable).Success?
    ensures var summary := Batch.Batch(words, wordInfo, tlds, isAvailable).value;
      var s := MakeSettings(version, summary.amount, summary.available, words, duration, options);
      && s.words == |words| && s.checked == summary.amount
      && s.checked == s.words * |tlds|
      && s.available == |summary.available| <= s.checked
      && s.version == version && s.duration == duration && s.options == options
  {
    Batch.BatchOutcome(words, wordInfo, tlds, isAvailable);
  }
}
