/**
 * The string primitives the script relies on, as Python 2 defines them on
 * byte strings: `str.strip()`, `str.lower()`, `str.split(sep)`,
 * `sep.join(parts)` and the substring test `pat in text`.
 */
module Text {

  /** The whitespace Python 2 strips from byte strings: tab, line feed, vertical tab, form feed, carriage return, space. */
  predicate IsSpace(c: char) {
    (9 <= c as int <= 13) || c == ' '
  }

  /** Length of the longest all-whitespace prefix of `s`. */
  function LeadingSpaces(s: string): (n: nat)
    ensures n <= |s|
    ensures forall k :: 0 <= k < n ==> IsSpace(s[k])
    ensures n < |s| ==> !IsSpace(s[n])
  {
    if s == [] || !IsSpace(s[0]) then 0 else 1 + LeadingSpaces(s[1..])
  }

  /** Length of the longest all-whitespace suffix of `s`. */
  function TrailingSpaces(s: string): (n: nat)
    ensures n <= |s|
    ensures forall k :: |s| - n <= k < |s| ==> IsSpace(s[k])
    ensures n < |s| ==> !IsSpace(s[|s| - 1 - n])
  {
    if s == [] || !IsSpace(s[|s| - 1]) then 0 else 1 + TrailingSpaces(s[..|s| - 1])
  }

  /** `s.strip()`: `s` without its leading and trailing whitespace. */
  function Strip(s: string): (r: string)
    ensures |r| <= |s|
    ensures r == [] <==> forall k :: 0 <= k < |s| ==> IsSpace(s[k])
    ensures r != [] ==> !IsSpace(r[0]) && !IsSpace(r[|r| - 1])
  {
    var lead := LeadingSpaces(s);
    if lead == |s| then []
    else
      var trail := TrailingSpaces(s);
      assert !IsSpace(s[lead]);
      assert trail < |s| - lead;
      s[lead .. |s| - trail]
  }

  lemma {:induction false} LeadingSpacesPadded(pad: string, t: string)
    requires forall k :: 0 <= k < |pad| ==> IsSpace(pad[k])
    requires t == [] || !IsSpace(t[0])
    ensures LeadingSpaces(pad + t) == |pad|
  {
    if pad != [] {
      assert (pad + t)[1..] == pad[1..] + t;
      LeadingSpacesPadded(pad[1..], t);
    }
  }

  lemma {:induction false} TrailingSpacesPadded(t: string, pad: string)
    requires forall k :: 0 <= k < |pad| ==> IsSpace(pad[k])
    requires t == [] || !IsSpace(t[|t| - 1])
    ensures TrailingSpaces(t + pad) == |pad|
  {
    if pad != [] {
      assert (t + pad)[..|t + pad| - 1] == t + pad[..|pad| - 1];
      TrailingSpacesPadded(t, pad[..|pad| - 1]);
    }
  }

  /**
   * `strip()` removes exactly the surrounding whitespace: whatever padding
   * surrounds a text that neither starts nor ends with whitespace, stripping
   * gives back that text.
   */
  lemma StripRemovesPadding(left: string, t: string, right: string)
    requires forall k :: 0 <= k < |left| ==> IsSpace(left[k])
    requires forall k :: 0 <= k < |right| ==> IsSpace(right[k])
    requires t != [] && !IsSpace(t[0]) && !IsSpace(t[|t| - 1])
    ensures Strip(left + t + right) == t
  {
    var s := left + t + right;
    assert s == left + (t + right);
    LeadingSpacesPadded(left, t + right);
    TrailingSpacesPadded(left + t, right);
    assert s[|left| .. |s| - |right|] == t;
  }

  /** ASCII lower-casing of one character, as Python 2's `str.lower()` does it. */
  function LowerChar(c: char): char {
    if 'A' <= c <= 'Z' then (c as int + 32) as char else c
  }

  /** The string with every ASCII capital letter replaced by its small letter, as Python 2 lower-cases byte strings. */
  function Lower(s: string): (r: string)
    ensures |r| == |s|
    ensures forall k :: 0 <= k < |r| ==> !('A' <= r[k] <= 'Z')
    ensures forall k :: 0 <= k < |s| ==> (s[k] == r[k] <==> !('A' <= s[k] <= 'Z'))
    ensures forall k :: 0 <= k < |s| && 'A' <= s[k] <= 'Z' ==> r[k] as int == s[k] as int + 32
  {
    seq(|s|, k requires 0 <= k < |s| => LowerChar(s[k]))
  }

  lemma LowerIdempotent(s: string)
    ensures Lower(Lower(s)) == Lower(s)
  {
  }

  lemma LowerAppend(a: string, b: string)
    ensures Lower(a + b) == Lower(a) + Lower(b)
  {
    assert forall k :: 0 <= k < |a + b| ==> Lower(a + b)[k] == (Lower(a) + Lower(b))[k];
  }

  /** `s.split([sep])`: the fields between occurrences of `sep`; "" gives [""]. */
  function Split(s: string, sep: char): (r: seq<string>)
    ensures |r| >= 1
    ensures forall k :: 0 <= k < |r| ==> sep !in r[k]
    ensures |r| == 1 <==> sep !in s
  {
    if s == [] then [[]]
    else
      var rest := Split(s[1..], sep);
      if s[0] == sep then [[]] + rest else [[s[0]] + rest[0]] + rest[1..]
  }

  /** The parts in order with `sep` between each two of them; no parts give the empty string. */
  function Join(sep: string, parts: seq<string>): string
  {
    if |parts| == 0 then []
    else if |parts| == 1 then parts[0]
    else parts[0] + sep + Join(sep, parts[1..])
  }

  /** A character found neither in the separator nor in any part is not in the join. */
  lemma {:induction false} JoinAvoids(sep: string, parts: seq<string>, c: char)
    requires c !in sep
    requires forall k :: 0 <= k < |parts| ==> c !in parts[k]
    ensures c !in Join(sep, parts)
  {
    if |parts| > 1 {
      JoinAvoids(sep, parts[1..], c);
    }
  }

  /** Joining the fields back with the separator restores the text. */
  lemma {:induction false} JoinSplit(s: string, sep: char)
    ensures Join([sep], Split(s, sep)) == s
  {
    if s != [] {
      JoinSplit(s[1..], sep);
      var rest := Split(s[1..], sep);
      if s[0] == sep {
        assert ([[]] + rest)[1..] == rest;
      } else {
        var r := [[s[0]] + rest[0]] + rest[1..];
        if |rest| == 1 {
          assert Join([sep], r) == [s[0]] + rest[0];
        } else {
          assert r[1..] == rest[1..];
          assert Join([sep], rest) == rest[0] + [sep] + Join([sep], rest[1..]);
          assert Join([sep], r) == [s[0]] + rest[0] + [sep] + Join([sep], rest[1..]);
        }
        assert s == [s[0]] + s[1..];
      }
    }
  }

  lemma {:induction false} SplitNoSeparator(s: string, sep: char)
    requires sep !in s
    ensures Split(s, sep) == [s]
  {
    if s != [] {
      SplitNoSeparator(s[1..], sep);
      assert [s[0]] + s[1..] == s;
    }
  }

  /** Splitting text that holds one separator splits its two sides independently. */
  lemma {:induction false} SplitAround(a: string, b: string, sep: char)
    ensures Split(a + [sep] + b, sep) == Split(a, sep) + Split(b, sep)
  {
    if a == [] {
      assert a + [sep] + b == [sep] + b;
      assert ([sep] + b)[1..] == b;
    } else {
      assert (a + [sep] + b)[1..] == a[1..] + [sep] + b;
      SplitAround(a[1..], b, sep);
    }
  }

  /** The fields of a join are the joined parts, when no part holds the separator. */
  lemma {:induction false} SplitJoin(parts: seq<string>, sep: char)
    requires |parts| >= 1
    requires forall k :: 0 <= k < |parts| ==> sep !in parts[k]
    ensures Split(Join([sep], parts), sep) == parts
  {
    if |parts| == 1 {
      SplitNoSeparator(parts[0], sep);
    } else {
      SplitJoin(parts[1..], sep);
      SplitNoSeparator(parts[0], sep);
      SplitAround(parts[0], Join([sep], parts[1..]), sep);
      assert [parts[0]] + parts[1..] == parts;
    }
  }

  /** `pat` occurs in `text` starting at index `i`. */
  predicate OccursAt(text: string, pat: string, i: nat) {
    i + |pat| <= |text| && text[i .. i + |pat|] == pat
  }

  /** `pat in text`, by scanning the start positions from left to right. */
  predicate Contains(text: string, pat: string)
    decreases |text|
  {
    if |pat| > |text| then false
    else if text[..|pat|] == pat then true
    else |text| > 0 && Contains(text[1..], pat)
  }

  /** The scan finds `pat` exactly when it occurs at some position. */
  lemma {:induction false} ContainsIff(text: string, pat: string)
    ensures Contains(text, pat) <==> exists i: nat :: OccursAt(text, pat, i)
  {
    if |pat| > |text| {
      assert forall i: nat :: !OccursAt(text, pat, i);
    } else if text[..|pat|] == pat {
      assert OccursAt(text, pat, 0);
    } else if |text| == 0 {
      assert false;
    } else {
      ContainsIff(text[1..], pat);
      forall i: nat | OccursAt(text[1..], pat, i) ensures OccursAt(text, pat, i + 1) {
        assert text[1..][i .. i + |pat|] == text[i + 1 .. i + 1 + |pat|];
      }
      forall i: nat | OccursAt(text, pat, i) ensures i > 0 && OccursAt(text[1..], pat, i - 1) {
        assert i != 0;
        assert text[1..][i - 1 .. i - 1 + |pat|] == text[i .. i + |pat|];
      }
    }
  }

  /** A text in which some character of `pat` never appears cannot contain `pat`. */
  lemma MissingCharacter(text: string, pat: string, c: char)
    requires c in pat && c !in text
    ensures !Contains(text, pat)
  {
    ContainsIff(text, pat);
    var k :| 0 <= k < |pat| && pat[k] == c;
    forall i: nat ensures !OccursAt(text, pat, i) {
      if i + |pat| <= |text| {
        assert text[i .. i + |pat|][k] == text[i + k];
      }
    }
  }

  /** An occurrence survives any text put before or after. */
  lemma ContainsInContext(pre: string, text: string, post: string, pat: string)
    requires Contains(text, pat)
    ensures Contains(pre + text + post, pat)
  {
    ContainsIff(text, pat);
    var i: nat :| OccursAt(text, pat, i);
    assert (pre + text + post)[|pre| + i .. |pre| + i + |pat|] == text[i .. i + |pat|];
    assert OccursAt(pre + text + post, pat, |pre| + i);
    ContainsIff(pre + text + post, pat);
  }
}
