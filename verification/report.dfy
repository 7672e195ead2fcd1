/** The report of `wordFeqCount`: the table copied into a TreeMap, walked in
    ascending key order, one `word count` line per entry. */
module Report {
  import opened Wrappers
  import Decimal
  import Tokenizer
  import WordCount

  /** `a.compareTo(b) < 0`: the first differing character decides, and a
      proper prefix comes first. Java compares UTF-16 code units and Dafny
      compares characters; the two orders agree below U+D800, which covers
      every word that reaches the report (empty or `a`-`z` only, see
      `AllTokensAreWords`). */
  predicate LexLess(a: string, b: string)
  {
    if a == [] then b != []
    else if b == [] then false
    else if a[0] != b[0] then a[0] < b[0]
    else LexLess(a[1..], b[1..])
  }

  lemma {:induction false} LexLessIrreflexive(a: string)
    ensures !LexLess(a, a)
  {
    if a != [] {
      LexLessIrreflexive(a[1..]);
    }
  }

  lemma {:induction false} LexLessTransitive(a: string, b: string, c: string)
    requires LexLess(a, b) && LexLess(b, c)
    ensures LexLess(a, c)
  {
    if a != [] && b != [] && c != [] && a[0] == b[0] && b[0] == c[0] {
      LexLessTransitive(a[1..], b[1..], c[1..]);
    }
  }

  /** Any two different strings are ordered one way or the other. */
  lemma {:induction false} LexLessTotal(a: string, b: string)
    requires a != b
    ensures LexLess(a, b) || LexLess(b, a)
  {
    if a != [] && b != [] && a[0] == b[0] {
      assert a == [a[0]] + a[1..] && b == [b[0]] + b[1..];
      LexLessTotal(a[1..], b[1..]);
    }
  }

  /** The entries are in strictly ascending key order, hence without a
      repeated word. */
  predicate StrictlyAscending(entries: seq<(string, nat)>)
  {
    forall i, j :: 0 <= i < j < |entries| ==> LexLess(entries[i].0, entries[j].0)
  }

  /** The smallest word of a non-empty key set, as the TreeMap's first
      entry. */
  method MinWord(words: set<string>) returns (w: string)
    requires words != {}
    ensures w in words
    ensures forall v :: v in words && v != w ==> LexLess(w, v)
  {
    w :| w in words;
    var rest := words - {w};
    while rest != {}
      invariant rest <= words && w in words && w !in rest
      invariant forall v :: v in words - rest && v != w ==> LexLess(w, v)
      decreases rest
    {
      var v :| v in rest;
      if LexLess(v, w) {
        forall u | u in words - rest && u != v
          ensures LexLess(v, u)
        {
          if u != w {
            LexLessTransitive(v, w, u);
          }
        }
        w := v;
      } else {
        LexLessTotal(v, w);
      }
      rest := rest - {v};
    }
  }

  /** The TreeMap's entry set: the table's entries in ascending word order,
      each word once with its count. */
  method SortedEntries(m: WordCount.Counts) returns (entries: seq<(string, nat)>)
    ensures StrictlyAscending(entries)
    ensures |entries| == |m|
    ensures forall i :: 0 <= i < |entries| ==> entries[i].0 in m && entries[i].1 == m[entries[i].0]
    ensures forall w :: w in m ==> exists i :: 0 <= i < |entries| && entries[i].0 == w
  {
    var rest := m.Keys;
    entries := [];
    while rest != {}
      invariant rest <= m.Keys
      invariant StrictlyAscending(entries)
      invariant |entries| + |rest| == |m|
      invariant forall i :: 0 <= i < |entries| ==> entries[i].0 in m.Keys - rest && entries[i].1 == m[entries[i].0]
      invariant forall w :: w in m.Keys - rest ==> exists i :: 0 <= i < |entries| && entries[i].0 == w
      invariant forall i, v :: 0 <= i < |entries| && v in rest ==> LexLess(entries[i].0, v)
      decreases rest
    {
      var w := MinWord(rest);
      ghost var before := entries;
      entries := entries + [(w, m[w])];
      forall v | v in m.Keys - (rest - {w})
        ensures exists i :: 0 <= i < |entries| && entries[i].0 == v
      {
        if v == w {
          assert entries[|before|].0 == v;
        } else {
          assert v in m.Keys - rest;
          var i :| 0 <= i < |before| && before[i].0 == v;
          assert entries[i].0 == v;
        }
      }
      rest := rest - {w};
    }
    assert m.Keys - rest == m.Keys;
  }

  /** One report line: `word + " " + count`. */
  function FormatLine(word: string, count: nat): string
  {
    word + " " + Decimal.NatToDecimal(count)
  }

  /** Reading a line back: the word up to the first space, the count after
      it. */
  function ParseLine(line: string): Option<(string, nat)>
  {
    if ' ' !in line then None
    else
      var k := FirstSpace(line);
      var digits := line[k + 1..];
      if digits != [] && Decimal.AllDigits(digits) then Some((line[..k], Decimal.DecimalValue(digits)))
      else None
  }

  function FirstSpace(line: string): (k: nat)
    requires ' ' in line
    ensures k < |line| && line[k] == ' ' && ' ' !in line[..k]
  {
    if line[0] == ' ' then 0 else 1 + FirstSpace(line[1..])
  }

  /** A report line of a word without spaces reads back as its word and
      count, so distinct entries give distinct lines. */
  lemma FormatLineRoundTrip(word: string, count: nat)
    requires ' ' !in word
    ensures ParseLine(FormatLine(word, count)) == Some((word, count))
  {
    var line := FormatLine(word, count);
    assert line[|word|] == ' ';
    assert ' ' in line;
    assert line[..|word|] == word;
    var k := FirstSpace(line);
    assert line[k + 1..] == Decimal.NatToDecimal(count);
    Decimal.DecimalRoundTrip(count);
  }

  /** The lines the report writer emits for the sorted entries. */
  function ReportLines(entries: seq<(string, nat)>): seq<string>
  {
    seq(|entries|, i requires 0 <= i < |entries| => FormatLine(entries[i].0, entries[i].1))
  }

  /** When no word contains a space, every report line reads back as its
      entry: the report loses nothing of the table. */
  lemma ReportLinesReadBack(entries: seq<(string, nat)>)
    requires forall i :: 0 <= i < |entries| ==> ' ' !in entries[i].0
    ensures |ReportLines(entries)| == |entries|
    ensures forall i :: 0 <= i < |entries| ==> ParseLine(ReportLines(entries)[i]) == Some(entries[i])
  {
    forall i | 0 <= i < |entries|
      ensures ParseLine(ReportLines(entries)[i]) == Some(entries[i])
    {
      FormatLineRoundTrip(entries[i].0, entries[i].1);
    }
  }

  /** `wordFeqCount` from the directory listing to the lines of the report
      (None for a path that is not a directory). The lines are the sorted
      entries, one per line, and read back as them; every word is a token
      of the files read before the first failure, with its total number of
      occurrences there; every such token has a line. */
  method WordFreqCount(listing: Option<seq<WordCount.FileRead>>)
    returns (entries: seq<(string, nat)>, lines: seq<string>)
    ensures StrictlyAscending(entries)
    ensures |lines| == |entries|
    ensures forall i :: 0 <= i < |lines| ==> lines[i] == FormatLine(entries[i].0, entries[i].1)
    ensures forall i :: 0 <= i < |lines| ==> ParseLine(lines[i]) == Some(entries[i])
    ensures var tokens := WordCount.AllTokens(WordCount.Counted(listing));
      && (forall i :: 0 <= i < |entries| ==>
            entries[i].0 in tokens && entries[i].1 == multiset(tokens)[entries[i].0] >= 1)
      && (forall w :: w in tokens ==> exists i :: 0 <= i < |entries| && entries[i].0 == w)
  {
    var counts := WordCount.CountListing(listing);
    ghost var tokens := WordCount.AllTokens(WordCount.Counted(listing));
    WordCount.CountListingIsOccurrences(listing);
    assert counts == WordCount.Occurrences(multiset(tokens));
    entries := SortedEntries(counts);
    AllTokensAreWords(WordCount.Counted(listing));
    forall i | 0 <= i < |entries|
      ensures ' ' !in entries[i].0
    {
      var w := entries[i].0;
      assert w in multiset(tokens);
      var k :| 0 <= k < |tokens| && tokens[k] == w;
      assert Tokenizer.IsWord(tokens[k]);
    }
    forall w | w in tokens
      ensures exists i :: 0 <= i < |entries| && entries[i].0 == w
    {
      assert w in multiset(tokens);
      assert w in counts;
    }
    lines := ReportLines(entries);
    ReportLinesReadBack(entries);
  }

  /** Every word counted is empty or lower-case letters. */
  lemma {:induction false} AllTokensAreWords(texts: seq<string>)
    ensures forall k :: 0 <= k < |WordCount.AllTokens(texts)| ==> Tokenizer.IsWord(WordCount.AllTokens(texts)[k])
  {
    if texts != [] {
      AllTokensAreWords(texts[1..]);
      Tokenizer.FileTokensAreWords(texts[0]);
      var a, b := Tokenizer.FileTokens(texts[0]), WordCount.AllTokens(texts[1..]);
      assert WordCount.AllTokens(texts) == a + b;
      forall k | 0 <= k < |a + b|
        ensures Tokenizer.IsWord((a + b)[k])
      {
        if k >= |a| {
          assert (a + b)[k] == b[k - |a|];
        }
      }
    }
  }
}
