/**
 * `check_domains` (zembu.py:125-150): every word paired with every TLD,
 * word-major and TLD-minor, each domain put to the WHOIS lookup, the
 * available ones collected with their word's annotation fields.
 * The rate-limited lookup is the oracle `isAvailable`; the terminal progress
 * line is recorded as the list of events passed to `print_progress`.
 */
module Batch {
  import opened Wrappers
  import opened Text
  import WordList

  /** One word+TLD pairing: its domain name and the annotation fields of its word. */
  datatype Candidate = Candidate(domain: string, info: seq<string>)

  /** The `(amount, available)` pair the loop returns. */
  datatype Summary = Summary(amount: nat, available: seq<string>)

  /** `word_info[n]` past the end of the list raises IndexError. */
  datatype BatchError = IndexError

  /**
   * The `curr`, `amount` and `domain` arguments of one
   * `print_progress(n, amount, domain, is_available)` call, whose display
   * does not use `is_available`.
   */
  datatype ProgressEvent = ProgressEvent(curr: nat, amount: nat, domain: string)

  /** The domain name for a word and a TLD: the two joined by a dot, lower-cased. */
  function Domain(word: string, tld: string): string {
    Lower(word + "." + tld)
  }

  /** How an available domain is reported: the domain, then its fields separated by commas, in parentheses. */
  function Entry(c: Candidate): string {
    c.domain + " (" + Join(", ", c.info) + ")"
  }

  /** The candidates of one word with the first `m` TLDs. */
  function Row(word: string, info: seq<string>, tlds: seq<string>, m: nat): (r: seq<Candidate>)
    requires m <= |tlds|
    ensures |r| == m
  {
    if m == 0 then [] else Row(word, info, tlds, m - 1) + [Candidate(Domain(word, tlds[m - 1]), info)]
  }

  /** The candidates of the first `n` words, word-major and TLD-minor. */
  function Candidates(words: seq<string>, wordInfo: seq<seq<string>>, tlds: seq<string>, n: nat): seq<Candidate>
    requires n <= |words| && n <= |wordInfo|
  {
    if n == 0 then [] else Candidates(words, wordInfo, tlds, n - 1) + Row(words[n - 1], wordInfo[n - 1], tlds, |tlds|)
  }

  /** The report lines of the candidates the oracle calls available, in candidate order. */
  function Report(cands: seq<Candidate>, isAvailable: string -> bool): (r: seq<string>)
    ensures |r| <= |cands|
  {
    if cands == [] then []
    else
      var last := cands[|cands| - 1];
      Report(cands[..|cands| - 1], isAvailable) + (if isAvailable(last.domain) then [Entry(last)] else [])
  }

  lemma ReportExtend(cands: seq<Candidate>, c: Candidate, isAvailable: string -> bool)
    ensures Report(cands + [c], isAvailable) ==
      Report(cands, isAvailable) + (if isAvailable(c.domain) then [Entry(c)] else [])
  {
    assert (cands + [c])[..|cands|] == cands;
  }

  /** Reporting distributes over concatenation: the order of candidates is kept. */
  lemma {:induction false} ReportConcat(a: seq<Candidate>, b: seq<Candidate>, isAvailable: string -> bool)
    ensures Report(a + b, isAvailable) == Report(a, isAvailable) + Report(b, isAvailable)
  {
    if b == [] {
      assert a + b == a;
    } else {
      var init, last := b[..|b| - 1], b[|b| - 1];
      var tail := if isAvailable(last.domain) then [Entry(last)] else [];
      ReportConcat(a, init, isAvailable);
      assert a + b == (a + init) + [last];
      assert b == init + [last];
      ReportExtend(a + init, last, isAvailable);
      ReportExtend(init, last, isAvailable);
      calc {
        Report(a + b, isAvailable);
        Report(a + init, isAvailable) + tail;
        (Report(a, isAvailable) + Report(init, isAvailable)) + tail;
        Report(a, isAvailable) + (Report(init, isAvailable) + tail);
        Report(a, isAvailable) + Report(b, isAvailable);
      }
    }
  }

  /** What `check_domains` returns, or the IndexError it raises. */
  function Batch(words: seq<string>, wordInfo: seq<seq<string>>, tlds: seq<string>, isAvailable: string -> bool)
    : Result<Summary, BatchError>
  {
    if |wordInfo| < |words| then Failure(IndexError)
    else Success(Summary(|words| * |tlds|, Report(Candidates(words, wordInfo, tlds, |words|), isAvailable)))
  }

  /**
   * The progress events of one word with its first `m` TLDs when the counter
   * starts the word at `start` and reads `start + m` after the `m`-th TLD.
   * The script's counter `n` is also the loop index over the words, so it
   * starts word `i` at `i`; the corrected count starts it at the number of
   * domains checked before it.
   */
  function RowProgress(start: nat, word: string, tlds: seq<string>, m: nat, amount: nat): (r: seq<ProgressEvent>)
    requires m <= |tlds|
    ensures |r| == m
  {
    if m == 0 then []
    else RowProgress(start, word, tlds, m - 1, amount) + [ProgressEvent(start + m, amount, Domain(word, tlds[m - 1]))]
  }

  /** The progress events of the first `n` words, as the script emits them. */
  function Progress(words: seq<string>, tlds: seq<string>, n: nat, amount: nat): seq<ProgressEvent>
    requires n <= |words|
  {
    if n == 0 then [] else Progress(words, tlds, n - 1, amount) + RowProgress(n - 1, words[n - 1], tlds, |tlds|, amount)
  }

  function Min(a: nat, b: nat): nat {
    if a < b then a else b
  }

  /**
   * The inner loop (zembu.py:140-148) for word number `n`: its domains with
   * every TLD in order, the available ones reported, one progress event each.
   * The script's `n` doubles as the progress counter and starts at `n` here.
   */
  method CheckWord(word: string, info: seq<string>, tlds: seq<string>, isAvailable: string -> bool,
                   verbose: bool, n: nat, amount: nat)
    returns (found: seq<string>, events: seq<ProgressEvent>)
    ensures found == RowReport(word, info, tlds, |tlds|, isAvailable)
    ensures events == if verbose then [] else RowProgress(n, word, tlds, |tlds|, amount)
  {
    found, events := [], [];
    var counter := n;
    for j := 0 to |tlds|
      invariant counter == n + j
      invariant found == RowReport(word, info, tlds, j, isAvailable)
      invariant verbose ==> events == []
      invariant !verbose ==> events == RowProgress(n, word, tlds, j, amount)
    {
      var domain := Domain(word, tlds[j]);
      var isAvail := isAvailable(domain);
      if isAvail {
        found := found + [Entry(Candidate(domain, info))];
      }
      counter := counter + 1;
      if !verbose {
        events := events + [ProgressEvent(counter, amount, domain)];
      }
    }
  }

  /** The report lines of one word, TLD by TLD. */
  function RowReport(word: string, info: seq<string>, tlds: seq<string>, m: nat, isAvailable: string -> bool): seq<string>
    requires m <= |tlds|
  {
    if m == 0 then []
    else
      var c := Candidate(Domain(word, tlds[m - 1]), info);
      RowReport(word, info, tlds, m - 1, isAvailable) + (if isAvailable(c.domain) then [Entry(c)] else [])
  }

  lemma {:induction false} RowReportIsReport(word: string, info: seq<string>, tlds: seq<string>, m: nat, isAvailable: string -> bool)
    requires m <= |tlds|
    ensures RowReport(word, info, tlds, m, isAvailable) == Report(Row(word, info, tlds, m), isAvailable)
  {
    if m > 0 {
      RowReportIsReport(word, info, tlds, m - 1, isAvailable);
      ReportExtend(Row(word, info, tlds, m - 1), Candidate(Domain(word, tlds[m - 1]), info), isAvailable);
    }
  }

  /**
   * The loop as the script runs it. On success it returns what Batch
   * describes; it fails exactly when some word has no `word_info` entry, after
   * checking the words before it. Without `verbose` every checked domain
   * produces one progress event.
   */
  method CheckDomains(words: seq<string>, wordInfo: seq<seq<string>>, tlds: seq<string>,
                      isAvailable: string -> bool, verbose: bool)
    returns (r: Result<Summary, BatchError>, progress: seq<ProgressEvent>)
    ensures r == Batch(words, wordInfo, tlds, isAvailable)
    ensures progress == if verbose then [] else Progress(words, tlds, Min(|words|, |wordInfo|), |words| * |tlds|)
  {
    var amount: nat := |words| * |tlds|;
    var available: seq<string> := [];
    progress := [];
    var n := 0;
    while n < |words|
      invariant n <= |words| && n <= |wordInfo|
      invariant available == BatchReport(words, wordInfo, tlds, n, isAvailable)
      invariant verbose ==> progress == []
      invariant !verbose ==> progress == Progress(words, tlds, n, amount)
    {
      var word := words[n];
      if n >= |wordInfo| {
        r := Failure(IndexError);
        return;
      }
      var info := wordInfo[n];
      var found, events := CheckWord(word, info, tlds, isAvailable, verbose, n, amount);
      available := available + found;
      progress := progress + events;
      n := n + 1;
    }
    BatchReportIsReport(words, wordInfo, tlds, n, isAvailable);
    r := Success(Summary(amount, available));
  }

  /** The report lines of the first `n` words, word by word. */
  function BatchReport(words: seq<string>, wordInfo: seq<seq<string>>, tlds: seq<string>, n: nat,
                       isAvailable: string -> bool): seq<string>
    requires n <= |words| && n <= |wordInfo|
  {
    if n == 0 then []
    else BatchReport(words, wordInfo, tlds, n - 1, isAvailable) + RowReport(words[n - 1], wordInfo[n - 1], tlds, |tlds|, isAvailable)
  }

  lemma {:induction false} BatchReportIsReport(words: seq<string>, wordInfo: seq<seq<string>>, tlds: seq<string>, n: nat,
                                               isAvailable: string -> bool)
    requires n <= |words| && n <= |wordInfo|
    ensures BatchReport(words, wordInfo, tlds, n, isAvailable) == Report(Candidates(words, wordInfo, tlds, n), isAvailable)
  {
    if n > 0 {
      BatchReportIsReport(words, wordInfo, tlds, n - 1, isAvailable);
      RowReportIsReport(words[n - 1], wordInfo[n - 1], tlds, |tlds|, isAvailable);
      ReportConcat(Candidates(words, wordInfo, tlds, n - 1), Row(words[n - 1], wordInfo[n - 1], tlds, |tlds|), isAvailable);
    }
  }

  /** Index arithmetic of a word-major table with `m` columns. */
  lemma BlockIndex(n: nat, m: nat, i: nat, j: nat)
    requires 0 < n && i < n && j < m
    ensures (n - 1) * m + m == n * m
    ensures i < n - 1 ==> i * m + j < (n - 1) * m
    ensures i == n - 1 ==> i * m + j - (n - 1) * m == j && (n - 1) * m <= i * m + j
    ensures i * m + j < n * m
  {
    if i < n - 1 {
      assert i * m + j < i * m + m == (i + 1) * m;
      assert (i + 1) * m <= (n - 1) * m;
    }
  }

  /** There are `n * |tlds|` candidates for the first `n` words. */
  lemma {:induction false} CandidatesLength(words: seq<string>, wordInfo: seq<seq<string>>, tlds: seq<string>, n: nat)
    requires n <= |words| && n <= |wordInfo|
    ensures |Candidates(words, wordInfo, tlds, n)| == n * |tlds|
  {
    if n > 0 {
      CandidatesLength(words, wordInfo, tlds, n - 1);
      assert (n - 1) * |tlds| + |tlds| == n * |tlds|;
    }
  }

  /** Row(.., m) holds TLD `j` at position `j`. */
  lemma {:induction false} RowAt(word: string, info: seq<string>, tlds: seq<string>, m: nat, j: nat)
    requires m <= |tlds| && j < m
    ensures Row(word, info, tlds, m)[j] == Candidate(Domain(word, tlds[j]), info)
  {
    if j < m - 1 { RowAt(word, info, tlds, m - 1, j); }
  }

  /**
   * The candidates are exactly the cross product, word-major and TLD-minor:
   * position `i * |tlds| + j` holds word `i` with TLD `j`.
   */
  lemma {:induction false} CandidateAt(words: seq<string>, wordInfo: seq<seq<string>>, tlds: seq<string>, n: nat, i: nat, j: nat)
    requires n <= |words| && n <= |wordInfo| && i < n && j < |tlds|
    ensures i * |tlds| + j < |Candidates(words, wordInfo, tlds, n)|
    ensures Candidates(words, wordInfo, tlds, n)[i * |tlds| + j] == Candidate(Domain(words[i], tlds[j]), wordInfo[i])
  {
    var m := |tlds|;
    BlockIndex(n, m, i, j);
    CandidatesLength(words, wordInfo, tlds, n);
    CandidatesLength(words, wordInfo, tlds, n - 1);
    if i < n - 1 {
      CandidateAt(words, wordInfo, tlds, n - 1, i, j);
    } else {
      RowAt(words[n - 1], wordInfo[n - 1], tlds, m, j);
    }
  }

  /**
   * A line is reported exactly when some candidate the oracle calls available
   * has it as its entry.
   */
  lemma {:induction false} ReportMembership(cands: seq<Candidate>, isAvailable: string -> bool, line: string)
    ensures line in Report(cands, isAvailable) <==>
      exists k :: 0 <= k < |cands| && isAvailable(cands[k].domain) && Entry(cands[k]) == line
  {
    if cands != [] {
      var init := cands[..|cands| - 1];
      ReportMembership(init, isAvailable, line);
      if exists k :: 0 <= k < |init| && isAvailable(init[k].domain) && Entry(init[k]) == line {
        var k :| 0 <= k < |init| && isAvailable(init[k].domain) && Entry(init[k]) == line;
        assert cands[k] == init[k];
      }
      if exists k :: 0 <= k < |cands| && isAvailable(cands[k].domain) && Entry(cands[k]) == line {
        var k :| 0 <= k < |cands| && isAvailable(cands[k].domain) && Entry(cands[k]) == line;
        if k < |init| { assert init[k] == cands[k]; }
      }
    }
  }

  /** When the oracle calls everything available, every candidate is reported, in order. */
  lemma {:induction false} ReportAllAvailable(cands: seq<Candidate>, isAvailable: string -> bool)
    requires forall k :: 0 <= k < |cands| ==> isAvailable(cands[k].domain)
    ensures |Report(cands, isAvailable)| == |cands|
    ensures forall k :: 0 <= k < |cands| ==> Report(cands, isAvailable)[k] == Entry(cands[k])
  {
    if cands != [] {
      ReportAllAvailable(cands[..|cands| - 1], isAvailable);
    }
  }

  /** When the oracle calls nothing available, nothing is reported. */
  lemma {:induction false} ReportNoneAvailable(cands: seq<Candidate>, isAvailable: string -> bool)
    requires forall k :: 0 <= k < |cands| ==> !isAvailable(cands[k].domain)
    ensures Report(cands, isAvailable) == []
  {
    if cands != [] {
      ReportNoneAvailable(cands[..|cands| - 1], isAvailable);
    }
  }

  /**
   * The loop fails exactly when `word_info` is shorter than `words`; otherwise
   * it reports `|words| * |tlds|` checks, whatever the oracle says, and at
   * most that many available domains.
   */
  lemma BatchOutcome(words: seq<string>, wordInfo: seq<seq<string>>, tlds: seq<string>, isAvailable: string -> bool)
    ensures Batch(words, wordInfo, tlds, isAvailable).Failure? <==> |wordInfo| < |words|
    ensures Batch(words, wordInfo, tlds, isAvailable).Success? ==>
      && Batch(words, wordInfo, tlds, isAvailable).value.amount == |words| * |tlds|
      && |Batch(words, wordInfo, tlds, isAvailable).value.available| <= |words| * |tlds|
  {
    if |wordInfo| >= |words| {
      CandidatesLength(words, wordInfo, tlds, |words|);
    }
  }

  lemma {:induction false} RowProgressAt(i: nat, word: string, tlds: seq<string>, m: nat, amount: nat, j: nat)
    requires m <= |tlds| && j < m
    ensures RowProgress(i, word, tlds, m, amount)[j] == ProgressEvent(i + j + 1, amount, Domain(word, tlds[j]))
  {
    if j < m - 1 { RowProgressAt(i, word, tlds, m - 1, amount, j); }
  }

  lemma {:induction false} ProgressLength(words: seq<string>, tlds: seq<string>, n: nat, amount: nat)
    requires n <= |words|
    ensures |Progress(words, tlds, n, amount)| == n * |tlds|
  {
    if n > 0 {
      ProgressLength(words, tlds, n - 1, amount);
      assert (n - 1) * |tlds| + |tlds| == n * |tlds|;
    }
  }

  /**
   * As the script counts: the event for word `i` with TLD `j` shows `i + j + 1`,
   * although `i * |tlds| + j + 1` domains have been checked by then.
   */
  lemma {:induction false} ProgressAt(words: seq<string>, tlds: seq<string>, n: nat, amount: nat, i: nat, j: nat)
    requires n <= |words| && i < n && j < |tlds|
    ensures i * |tlds| + j < |Progress(words, tlds, n, amount)|
    ensures Progress(words, tlds, n, amount)[i * |tlds| + j] == ProgressEvent(i + j + 1, amount, Domain(words[i], tlds[j]))
  {
    BlockIndex(n, |tlds|, i, j);
    ProgressLength(words, tlds, n, amount);
    ProgressLength(words, tlds, n - 1, amount);
    if i < n - 1 {
      ProgressAt(words, tlds, n - 1, amount, i, j);
    } else {
      RowProgressAt(n - 1, words[n - 1], tlds, |tlds|, amount, j);
    }
  }

  /**
   * With two or more words and two or more TLDs the last progress event of a
   * complete run shows less than `amount`: the bar never reaches 100%.
   */
  lemma ProgressFallsShort(words: seq<string>, tlds: seq<string>)
    requires |words| >= 2 && |tlds| >= 2
    ensures var p := Progress(words, tlds, |words|, |words| * |tlds|);
      |p| == |words| * |tlds| && p[|p| - 1].curr < |words| * |tlds|
  {
    var n, m := |words|, |tlds|;
    ProgressAt(words, tlds, n, n * m, n - 1, m - 1);
    ProgressLength(words, tlds, n, n * m);
    SumBelowProduct(n, m);
  }

  lemma {:induction false} SumBelowProduct(n: nat, m: nat)
    requires n >= 2 && m >= 2
    ensures (n - 1) * m + (m - 1) == n * m - 1
    ensures n + m - 1 < n * m
  {
    assert n * m == (n - 1) * m + m;
    if n > 2 { SumBelowProduct(n - 1, m); }
  }

  /** Two words with "com" and "net": the four checks show 1, 2, 2, 3 of 4. */
  lemma ProgressCounterExample()
    ensures var p := Progress(["a", "b"], ["com", "net"], 2, 4);
      |p| == 4 && p[0].curr == 1 && p[1].curr == 2 && p[2].curr == 2 && p[3].curr == 3
  {
    ProgressAt(["a", "b"], ["com", "net"], 2, 4, 0, 0);
    ProgressAt(["a", "b"], ["com", "net"], 2, 4, 0, 1);
    ProgressAt(["a", "b"], ["com", "net"], 2, 4, 1, 0);
    ProgressAt(["a", "b"], ["com", "net"], 2, 4, 1, 1);
    ProgressLength(["a", "b"], ["com", "net"], 2, 4);
  }

  /** Progress counted over the whole run, as the percentage display needs it. */
  function GlobalProgress(words: seq<string>, tlds: seq<string>, n: nat, amount: nat): seq<ProgressEvent>
    requires n <= |words|
  {
    if n == 0 then []
    else
      GlobalProgress(words, tlds, n - 1, amount)
        + RowProgress(|GlobalProgress(words, tlds, n - 1, amount)|, words[n - 1], tlds, |tlds|, amount)
  }

  /**
   * The corrected count: the `k`-th event shows `k + 1`, so a complete run
   * ends at `amount`; the events name the same domains as the script's.
   */
  lemma {:induction false} GlobalProgressCounts(words: seq<string>, tlds: seq<string>, n: nat, amount: nat)
    requires n <= |words|
    ensures |GlobalProgress(words, tlds, n, amount)| == |Progress(words, tlds, n, amount)|
    ensures forall k :: 0 <= k < |GlobalProgress(words, tlds, n, amount)| ==>
      && GlobalProgress(words, tlds, n, amount)[k].curr == k + 1
      && GlobalProgress(words, tlds, n, amount)[k].domain == Progress(words, tlds, n, amount)[k].domain
  {
    if n > 0 {
      GlobalProgressCounts(words, tlds, n - 1, amount);
      var prev := GlobalProgress(words, tlds, n - 1, amount);
      var row := RowProgress(|prev|, words[n - 1], tlds, |tlds|, amount);
      var quirky := RowProgress(n - 1, words[n - 1], tlds, |tlds|, amount);
      forall j | 0 <= j < |tlds|
        ensures row[j].curr == |prev| + j + 1 && row[j].domain == quirky[j].domain
      {
        RowProgressAt(|prev|, words[n - 1], tlds, |tlds|, amount, j);
        RowProgressAt(n - 1, words[n - 1], tlds, |tlds|, amount, j);
      }
    }
  }

  /** With the corrected count, a complete run's last event shows `amount`, i.e. 100%. */
  lemma GlobalProgressCompletes(words: seq<string>, tlds: seq<string>)
    requires |words| > 0 && |tlds| > 0
    ensures var p := GlobalProgress(words, tlds, |words|, |words| * |tlds|);
      |p| == |words| * |tlds| && p[|p| - 1].curr == |words| * |tlds|
  {
    GlobalProgressCounts(words, tlds, |words|, |words| * |tlds|);
    ProgressLength(words, tlds, |words|, |words| * |tlds|);
    assert |words| * |tlds| >= 1;
  }

  /** A word list from an annotated file can always be checked. */
  lemma AnnotatedListsCanBeChecked(lines: seq<string>, tlds: seq<string>, isAvailable: string -> bool)
    requires lines != [] && ';' in WordList.Normalize(lines[0])
    ensures WordList.ParseDict(lines).Success?
    ensures var wl := WordList.ParseDict(lines).value;
      Batch(wl.words, wl.wordInfo, tlds, isAvailable).Success?
  {
    WordList.AnnotatedModeOutput(lines);
  }

  /** A bare word list with any word fails in the loop: it has no `word_info`. */
  lemma BareListsCannotBeChecked(lines: seq<string>, tlds: seq<string>, isAvailable: string -> bool)
    requires lines != [] && ';' !in WordList.Normalize(lines[0])
    requires exists i :: 0 <= i < |lines| && WordList.Normalize(lines[i]) != []
    ensures WordList.ParseDict(lines).Success?
    ensures var wl := WordList.ParseDict(lines).value;
      Batch(wl.words, wl.wordInfo, tlds, isAvailable) == Failure(IndexError)
  {
    WordList.BareModeLacksInfo(lines);
  }
}
