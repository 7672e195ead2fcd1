/** The text side of WordFreqCountUtil: a file's lines joined without
    separator, lowercased, and cut into words by
    `String.split("[^A-Za-z]")`. */
module Tokenizer {
  import Seqs

  predicate IsLineBreak(c: char)
  {
    c == '\n' || c == '\r'
  }

  /** The index of the first line terminator of `text`, or `|text|`. */
  function LineEnd(text: string): (k: nat)
    ensures k <= |text|
    ensures forall j :: 0 <= j < k ==> !IsLineBreak(text[j])
    ensures k < |text| ==> IsLineBreak(text[k])
  {
    if text == [] || IsLineBreak(text[0]) then 0 else 1 + LineEnd(text[1..])
  }

  /** Where the line after the first one starts: past `\r\n` if the first
      line ends with that pair, past the one terminator otherwise. */
  function NextLineStart(text: string): (next: nat)
    requires LineEnd(text) < |text|
    ensures LineEnd(text) < next <= |text|
    ensures forall j :: LineEnd(text) <= j < next ==> IsLineBreak(text[j])
  {
    var k := LineEnd(text);
    if text[k] == '\r' && k + 1 < |text| && text[k + 1] == '\n' then k + 2 else k + 1
  }

  /** The lines `BufferedReader.readLine` returns one by one until it
      returns null: a line ends at `\n`, `\r` or `\r\n`, and a last line
      without terminator is returned if it is not empty. */
  function ReadLines(text: string): seq<string>
    decreases |text|
  {
    if text == [] then []
    else if LineEnd(text) == |text| then [text]
    else [text[..LineEnd(text)]] + ReadLines(text[NextLineStart(text)..])
  }

  /** The text with every `\r` and `\n` deleted. */
  function StripLineBreaks(text: string): string
  {
    if text == [] then []
    else (if IsLineBreak(text[0]) then [] else [text[0]]) + StripLineBreaks(text[1..])
  }

  lemma {:induction false} StripAppend(a: string, b: string)
    ensures StripLineBreaks(a + b) == StripLineBreaks(a) + StripLineBreaks(b)
  {
    if a != [] {
      assert (a + b)[1..] == a[1..] + b;
      StripAppend(a[1..], b);
    } else {
      assert a + b == b;
    }
  }

  lemma {:induction false} StripNoBreaks(a: string)
    requires forall j :: 0 <= j < |a| ==> !IsLineBreak(a[j])
    ensures StripLineBreaks(a) == a
  {
    if a != [] {
      StripNoBreaks(a[1..]);
    }
  }

  lemma {:induction false} StripOnlyBreaks(a: string)
    requires forall j :: 0 <= j < |a| ==> IsLineBreak(a[j])
    ensures StripLineBreaks(a) == []
  {
    if a != [] {
      StripOnlyBreaks(a[1..]);
    }
  }

  /** Stripping the breaks keeps a line and drops its terminator. */
  lemma {:induction false} StripLine(line: string, breaks: string, rest: string)
    requires forall j :: 0 <= j < |line| ==> !IsLineBreak(line[j])
    requires forall j :: 0 <= j < |breaks| ==> IsLineBreak(breaks[j])
    ensures StripLineBreaks(line + breaks + rest) == line + StripLineBreaks(rest)
  {
    StripAppend(line + breaks, rest);
    StripAppend(line, breaks);
    StripNoBreaks(line);
    StripOnlyBreaks(breaks);
  }

  /** Reading the lines of a text that has a terminator: the first line,
      then the lines of what follows its terminator. */
  lemma {:induction false} JoinFirstLine(text: string)
    requires text != [] && LineEnd(text) < |text|
    ensures Seqs.Concat(ReadLines(text)) ==
            text[..LineEnd(text)] + Seqs.Concat(ReadLines(text[NextLineStart(text)..]))
  {
  }

  lemma {:induction false} StripFirstLine(text: string)
    requires LineEnd(text) < |text|
    ensures StripLineBreaks(text) == text[..LineEnd(text)] + StripLineBreaks(text[NextLineStart(text)..])
  {
    var k, next := LineEnd(text), NextLineStart(text);
    assert text == text[..k] + text[k..next] + text[next..];
    StripLine(text[..k], text[k..next], text[next..]);
  }

  /** Appending the lines `readLine` returns, as the loop over
      `content.append(temp)` does, gives the text with all line breaks
      removed: nothing is inserted between lines and nothing else is lost. */
  lemma {:induction false} JoinedLinesStripBreaks(text: string)
    ensures Seqs.Concat(ReadLines(text)) == StripLineBreaks(text)
    decreases |text|
  {
    if text != [] {
      if LineEnd(text) == |text| {
        StripNoBreaks(text);
        assert Seqs.Concat([text]) == text + Seqs.Concat([]);
      } else {
        JoinFirstLine(text);
        JoinedLinesStripBreaks(text[NextLineStart(text)..]);
        StripFirstLine(text);
      }
    }
  }

  /** `toLowerCase` restricted to ASCII: `A`-`Z` become `a`-`z`, every other
      character is kept. */
  function LowerChar(c: char): char
  {
    if 'A' <= c <= 'Z' then (c as int + 32) as char else c
  }

  function ToLower(s: string): string
  {
    seq(|s|, i requires 0 <= i < |s| => LowerChar(s[i]))
  }

  /** A character the pattern `[^A-Za-z]` does not match. */
  predicate IsLetter(c: char)
  {
    'A' <= c <= 'Z' || 'a' <= c <= 'z'
  }

  predicate IsLowerLetter(c: char)
  {
    'a' <= c <= 'z'
  }

  /** Lowercasing keeps letters letters and delimiters delimiters, leaves
      no upper-case letter behind and changes nothing the second time. A
      character either stays as it is or moves up by 32, so `a`-`z` stay and
      `A`-`Z` become the matching lower-case letter. */
  lemma ToLowerProperties(s: string)
    ensures forall i :: 0 <= i < |s| ==> (IsLetter(ToLower(s)[i]) <==> IsLetter(s[i]))
    ensures forall i :: 0 <= i < |s| ==> (IsLetter(s[i]) ==> IsLowerLetter(ToLower(s)[i]))
    ensures forall i :: 0 <= i < |s| ==> (!IsLetter(s[i]) ==> ToLower(s)[i] == s[i])
    ensures forall i :: 0 <= i < |s| ==> (IsLowerLetter(s[i]) ==> ToLower(s)[i] == s[i])
    ensures forall i :: 0 <= i < |s| ==> ToLower(s)[i] == s[i] || ToLower(s)[i] as int == s[i] as int + 32
    ensures ToLower(ToLower(s)) == ToLower(s)
  {
  }

  predicate AllLetters(s: string)
  {
    forall i :: 0 <= i < |s| ==> IsLetter(s[i])
  }

  /** The characters the pattern matches, in order. */
  function Delimiters(s: string): seq<char>
  {
    if s == [] then [] else (if IsLetter(s[0]) then [] else [s[0]]) + Delimiters(s[1..])
  }

  /** The letters of `s`, in order. */
  function Letters(s: string): string
  {
    if s == [] then [] else (if IsLetter(s[0]) then [s[0]] else []) + Letters(s[1..])
  }

  /** The pieces between consecutive matches of the pattern, before
      trailing empty strings are removed: one more piece than there are
      delimiters, each piece a run of letters (possibly empty). */
  function Segments(s: string): (segs: seq<string>)
    ensures |segs| == |Delimiters(s)| + 1
    ensures forall i :: 0 <= i < |segs| ==> AllLetters(segs[i])
  {
    if s == [] then [[]]
    else
      var rest := Segments(s[1..]);
      if IsLetter(s[0]) then [[s[0]] + rest[0]] + rest[1..] else [[]] + rest
  }

  /** Putting the pieces back with the delimiters between them: the
      independent description of what splitting undoes. */
  function Rejoin(segs: seq<string>, delims: seq<char>): string
    requires |segs| == |delims| + 1
  {
    if delims == [] then segs[0] else segs[0] + [delims[0]] + Rejoin(segs[1..], delims[1..])
  }

  /** Prefixing the first piece prefixes the rejoined text. */
  lemma {:induction false} RejoinPrefixFirst(x: string, segs: seq<string>, delims: seq<char>)
    requires |segs| == |delims| + 1
    ensures Rejoin([x + segs[0]] + segs[1..], delims) == x + Rejoin(segs, delims)
  {
  }

  /** The pieces and the delimiters put back together give the input. */
  lemma {:induction false} SegmentsRejoin(s: string)
    ensures Rejoin(Segments(s), Delimiters(s)) == s
  {
    if s != [] {
      var rest, ds := Segments(s[1..]), Delimiters(s[1..]);
      SegmentsRejoin(s[1..]);
      if IsLetter(s[0]) {
        assert Segments(s) == [[s[0]] + rest[0]] + rest[1..];
        assert Delimiters(s) == ds;
        RejoinPrefixFirst([s[0]], rest, ds);
      } else {
        var segs := [[]] + rest;
        assert Segments(s) == segs && segs[1..] == rest;
        assert Delimiters(s) == [s[0]] + ds;
      }
      assert s == [s[0]] + s[1..];
    }
  }

  lemma {:induction false} SegmentsOfLetters(s: string)
    requires AllLetters(s)
    ensures Segments(s) == [s]
    ensures Delimiters(s) == []
  {
    if s != [] {
      SegmentsOfLetters(s[1..]);
      assert [s[0]] + s[1..] == s;
    }
  }

  lemma {:induction false} SegmentsCons(x: string, d: char, y: string)
    requires AllLetters(x) && !IsLetter(d)
    ensures Segments(x + [d] + y) == [x] + Segments(y)
    ensures Delimiters(x + [d] + y) == [d] + Delimiters(y)
  {
    var s := x + [d] + y;
    if x == [] {
      assert s[1..] == y;
    } else {
      assert s[1..] == x[1..] + [d] + y;
      SegmentsCons(x[1..], d, y);
      assert [x[0]] + x[1..] == x;
    }
  }

  /** The converse of `SegmentsRejoin`: any way of writing `s` as letter
      runs separated by single non-letters is the one `Segments` finds.
      Together the two characterise the pieces completely. */
  lemma {:induction false} SegmentsUnique(s: string, segs: seq<string>, delims: seq<char>)
    requires |segs| == |delims| + 1
    requires forall i :: 0 <= i < |segs| ==> AllLetters(segs[i])
    requires forall i :: 0 <= i < |delims| ==> !IsLetter(delims[i])
    requires Rejoin(segs, delims) == s
    ensures Segments(s) == segs
    ensures Delimiters(s) == delims
    decreases |delims|
  {
    if delims == [] {
      SegmentsOfLetters(s);
    } else {
      var y := Rejoin(segs[1..], delims[1..]);
      SegmentsUnique(y, segs[1..], delims[1..]);
      SegmentsCons(segs[0], delims[0], y);
    }
  }

  /** The pieces hold exactly the letters of the input, in order. */
  lemma {:induction false} SegmentsLetters(s: string)
    ensures Seqs.Concat(Segments(s)) == Letters(s)
  {
    if s != [] {
      SegmentsLetters(s[1..]);
      var rest := Segments(s[1..]);
      if IsLetter(s[0]) {
        assert Segments(s)[1..] == rest[1..];
        assert rest == [rest[0]] + rest[1..];
      } else {
        assert Segments(s)[1..] == rest;
      }
    }
  }

  /** `segs` without its trailing empty strings. */
  function DropTrailingEmpty(segs: seq<string>): (r: seq<string>)
    ensures |r| <= |segs| && r == segs[..|r|]
    ensures r == [] || r[|r| - 1] != []
    ensures forall i :: |r| <= i < |segs| ==> segs[i] == []
  {
    if segs == [] then []
    else if segs[|segs| - 1] == [] then DropTrailingEmpty(segs[..|segs| - 1])
    else segs
  }

  /** `String.split(regex)` with limit 0: the input itself when the pattern
      never matches (so the empty string gives one empty token), otherwise
      the pieces between matches without the trailing empty ones. */
  function JavaSplit(s: string): seq<string>
  {
    if Delimiters(s) == [] then [s] else DropTrailingEmpty(Segments(s))
  }

  /** The tokens of one file's text, as the loop body of `wordFeqCount`
      computes them. */
  function FileTokens(text: string): seq<string>
  {
    JavaSplit(ToLower(Seqs.Concat(ReadLines(text))))
  }

  lemma {:induction false} ConcatDropTrailing(segs: seq<string>)
    ensures Seqs.Concat(DropTrailingEmpty(segs)) == Seqs.Concat(segs)
    decreases |segs|
  {
    if segs != [] && segs[|segs| - 1] == [] {
      var init := segs[..|segs| - 1];
      ConcatDropTrailing(init);
      Seqs.ConcatAppend(init, [[]]);
      assert init + [[]] == segs;
    }
  }

  /** Every token `String.split("[^A-Za-z]")` returns is a run of letters,
      possibly empty; with no match the input comes back whole. */
  lemma JavaSplitTokensAreLetters(s: string)
    ensures forall i :: 0 <= i < |JavaSplit(s)| ==> AllLetters(JavaSplit(s)[i])
    ensures Delimiters(s) == [] ==> JavaSplit(s) == [s]
  {
    if Delimiters(s) == [] {
      DelimiterFreeIsLetters(s);
    }
  }

  /** With at least one match, the tokens are the leading pieces between
      matches; only empty pieces are dropped at the end, and the last token
      kept is not empty. */
  lemma JavaSplitDropsOnlyTrailingEmpty(s: string)
    requires Delimiters(s) != []
    ensures var t := JavaSplit(s);
      && |t| <= |Segments(s)|
      && t == Segments(s)[..|t|]
      && (forall i :: |t| <= i < |Segments(s)| ==> Segments(s)[i] == [])
      && (t == [] || t[|t| - 1] != [])
  {
  }

  /** The tokens hold all the letters of the input, in order, and nothing
      else. */
  lemma JavaSplitKeepsLetters(s: string)
    ensures Seqs.Concat(JavaSplit(s)) == Letters(s)
  {
    SegmentsLetters(s);
    if Delimiters(s) != [] {
      ConcatDropTrailing(Segments(s));
    } else {
      assert Segments(s) == JavaSplit(s) by {
        DelimiterFreeIsLetters(s);
        SegmentsOfLetters(s);
      }
    }
  }

  /** A text the pattern never matches is made only of letters. */
  lemma DelimiterFreeIsLetters(s: string)
    requires Delimiters(s) == []
    ensures AllLetters(s)
  {
  }

  /** Limit-0 splitting of the empty input gives one empty token. */
  lemma JavaSplitEmpty()
    ensures JavaSplit("") == [""]
  {
  }

  /** Cutting the text at one delimiter cuts its pieces there. */
  lemma {:induction false} SegmentsSplitAt(a: string, d: char, y: string)
    requires !IsLetter(d)
    ensures Segments(a + [d] + y) == Segments(a) + Segments(y)
    decreases |a|
  {
    if a == [] {
      SegmentsCons(a, d, y);
    } else {
      var s := a + [d] + y;
      assert s[0] == a[0] && s[1..] == a[1..] + [d] + y;
      SegmentsSplitAt(a[1..], d, y);
      var rest, tail := Segments(a[1..]), Segments(y);
      if IsLetter(a[0]) {
        assert Segments(s) == [[a[0]] + rest[0]] + (rest[1..] + tail) by {
          assert (rest + tail)[0] == rest[0];
          assert (rest + tail)[1..] == rest[1..] + tail;
        }
        assert Segments(a) == [[a[0]] + rest[0]] + rest[1..];
      } else {
        assert Segments(s) == [[]] + (rest + tail);
        assert Segments(a) == [[]] + rest;
      }
    }
  }

  lemma {:induction false} LettersOfDelimiters(s: string)
    requires forall i :: 0 <= i < |s| ==> !IsLetter(s[i])
    ensures Letters(s) == []
  {
    if s != [] {
      LettersOfDelimiters(s[1..]);
    }
  }

  /** A concatenation with some content has a piece with content. */
  lemma {:induction false} ConcatNonEmpty(t: seq<string>)
    requires Seqs.Concat(t) != []
    ensures exists j :: 0 <= j < |t| && t[j] != []
  {
    if t[0] == [] {
      ConcatNonEmpty(t[1..]);
      var j :| 0 <= j < |t[1..]| && t[1..][j] != [];
      assert t[j + 1] != [];
    }
  }

  /** A text made only of delimiters gives no token at all. */
  lemma {:induction false} JavaSplitOnlyDelimiters(s: string)
    requires s != []
    requires forall i :: 0 <= i < |s| ==> !IsLetter(s[i])
    ensures JavaSplit(s) == []
  {
    assert Delimiters(s) == [s[0]] + Delimiters(s[1..]);
    JavaSplitDropsOnlyTrailingEmpty(s);
    var t := JavaSplit(s);
    assert t != [] ==> Seqs.Concat(t) != [] by {
      if t != [] {
        var init, last := t[..|t| - 1], t[|t| - 1];
        assert t == init + [last];
        Seqs.ConcatAppend(init, [last]);
        assert Seqs.Concat([last]) == last + Seqs.Concat([]);
      }
    }
    LettersOfDelimiters(s);
    JavaSplitKeepsLetters(s);
  }

  /** A leading delimiter gives a leading empty token, followed by the
      tokens holding the letters when there are any. */
  lemma {:induction false} JavaSplitLeadingDelimiter(s: string)
    requires s != [] && !IsLetter(s[0]) && Letters(s) != []
    ensures |JavaSplit(s)| >= 2 && JavaSplit(s)[0] == []
  {
    assert Delimiters(s) == [s[0]] + Delimiters(s[1..]);
    assert Segments(s) == [[]] + Segments(s[1..]);
    JavaSplitKeepsLetters(s);
    JavaSplitDropsOnlyTrailingEmpty(s);
    var t := JavaSplit(s);
    assert t != [];
    assert Seqs.Concat(t) == t[0] + Seqs.Concat(t[1..]);
  }

  /** Two adjacent delimiters give an empty token between them, provided a
      letter follows somewhere after them: the token right after the pieces
      of the text `a` before them. */
  lemma {:induction false} JavaSplitAdjacentDelimiters(a: string, d1: char, d2: char, b: string)
    requires !IsLetter(d1) && !IsLetter(d2) && Letters(b) != []
    ensures var t := JavaSplit(a + [d1, d2] + b);
      |Delimiters(a)| + 1 < |t| && t[|Delimiters(a)| + 1] == []
  {
    var s := a + [d1, d2] + b;
    assert s == a + [d1] + ([d2] + b);
    SegmentsSplitAt(a, d1, [d2] + b);
    SegmentsCons([], d2, b);
    assert [] + [d2] + b == [d2] + b;
    var k := |Segments(a)|;
    var segs := Segments(s);
    assert segs == Segments(a) + ([[]] + Segments(b));
    SegmentsLetters(b);
    ConcatNonEmpty(Segments(b));
    var j :| 0 <= j < |Segments(b)| && Segments(b)[j] != [];
    assert segs[k] == [] && segs[k + 1 + j] != [];
    JavaSplitDropsOnlyTrailingEmpty(s);
  }

  /** A word the counter can meet: empty, or a run of `a`-`z`. */
  predicate IsWord(w: string)
  {
    forall i :: 0 <= i < |w| ==> IsLowerLetter(w[i])
  }

  predicate NoUpper(s: string)
  {
    forall i :: 0 <= i < |s| ==> !('A' <= s[i] <= 'Z')
  }

  lemma {:induction false} SegmentsNoUpper(s: string)
    requires NoUpper(s)
    ensures forall i :: 0 <= i < |Segments(s)| ==> NoUpper(Segments(s)[i])
  {
    if s != [] {
      var rest := Segments(s[1..]);
      assert NoUpper(s[1..]);
      SegmentsNoUpper(s[1..]);
      var segs := Segments(s);
      if IsLetter(s[0]) {
        assert segs == [[s[0]] + rest[0]] + rest[1..];
        forall i | 0 <= i < |segs|
          ensures NoUpper(segs[i])
        {
          if i == 0 {
            assert NoUpper(rest[0]);
          } else {
            assert segs[i] == rest[i];
          }
        }
      } else {
        assert segs == [[]] + rest;
        forall i | 0 <= i < |segs|
          ensures NoUpper(segs[i])
        {
          if i > 0 {
            assert segs[i] == rest[i - 1];
          }
        }
      }
    }
  }

  /** Every token of a file is empty or a run of lower-case ASCII letters,
      so none contains a delimiter, a space or a line break. */
  lemma FileTokensAreWords(text: string)
    ensures forall i :: 0 <= i < |FileTokens(text)| ==> IsWord(FileTokens(text)[i])
  {
    var lowered := ToLower(Seqs.Concat(ReadLines(text)));
    JavaSplitTokensAreLetters(lowered);
    var t := JavaSplit(lowered);
    assert NoUpper(lowered);
    if Delimiters(lowered) != [] {
      SegmentsNoUpper(lowered);
      JavaSplitDropsOnlyTrailingEmpty(lowered);
    }
    forall i | 0 <= i < |t|
      ensures IsWord(t[i])
    {
      assert NoUpper(t[i]);
    }
  }

  /** A text without line breaks is read as one line. */
  lemma {:induction false} ReadOneLine(text: string)
    requires text != []
    requires forall j :: 0 <= j < |text| ==> !IsLineBreak(text[j])
    ensures Seqs.Concat(ReadLines(text)) == text
  {
  }

  lemma {:induction false} SegmentStep(s: string, head: string, d: char, rest: seq<string>, segs: seq<string>)
    requires |head| < |s| && s[..|head|] == head && s[|head|] == d
    requires AllLetters(head) && !IsLetter(d) && Segments(s[|head| + 1..]) == rest
    requires segs == [head] + rest
    ensures Segments(s) == segs
    ensures Delimiters(s) != []
  {
    assert s == head + [d] + s[|head| + 1..];
    SegmentsCons(head, d, s[|head| + 1..]);
  }

  /** The example text lowercased. */
  lemma {:induction false} ExampleLower(s: string)
    requires s == "Cat cat DOG! dog-dog"
    ensures ToLower(s) == "cat cat dog! dog-dog"
  {
  }

  /** The example text, read and lowercased. */
  lemma {:induction false} ExampleLowered(text: string)
    requires text == "Cat cat DOG! dog-dog"
    ensures ToLower(Seqs.Concat(ReadLines(text))) == "cat cat dog! dog-dog"
  {
    ReadOneLine(text);
    ExampleLower(text);
  }

  // The split of the example text is proved one delimiter at a time: each
  // step puts one more letter run in front of the text already handled.

  lemma {:induction false} ExampleSegments1(s: string)
    requires s == "dog-dog"
    ensures Segments(s) == ["dog", "dog"]
  {
    assert s[..3] == "dog" && s[4..] == "dog";
    SegmentsOfLetters(s[4..]);
    SegmentStep(s, "dog", '-', ["dog"], ["dog", "dog"]);
  }

  lemma {:induction false} ExampleSegments2(s: string)
    requires s == " dog-dog"
    ensures Segments(s) == ["", "dog", "dog"]
  {
    ExampleSegments1(s[1..]);
    SegmentStep(s, "", ' ', ["dog", "dog"], ["", "dog", "dog"]);
  }

  lemma {:induction false} ExampleSegments3(s: string)
    requires s == "dog! dog-dog"
    ensures Segments(s) == ["dog", "", "dog", "dog"]
  {
    assert s[..3] == "dog";
    ExampleSegments2(s[4..]);
    SegmentStep(s, "dog", '!', ["", "dog", "dog"], ["dog", "", "dog", "dog"]);
  }

  lemma {:induction false} ExampleSegments4(s: string)
    requires s == "cat dog! dog-dog"
    ensures Segments(s) == ["cat", "dog", "", "dog", "dog"]
  {
    assert s[..3] == "cat";
    ExampleSegments3(s[4..]);
    SegmentStep(s, "cat", ' ', ["dog", "", "dog", "dog"], ["cat", "dog", "", "dog", "dog"]);
  }

  /** The pieces of the lowercased example between its delimiters. */
  lemma {:induction false} ExampleSegments(s: string)
    requires s == "cat cat dog! dog-dog"
    ensures Segments(s) == ["cat", "cat", "dog", "", "dog", "dog"]
    ensures Delimiters(s) != []
  {
    assert s[..3] == "cat";
    ExampleSegments4(s[4..]);
    SegmentStep(s, "cat", ' ', ["cat", "dog", "", "dog", "dog"], ["cat", "cat", "dog", "", "dog", "dog"]);
  }

  /** The example text: the space after the exclamation mark is a second
      adjacent delimiter, so the code counts one empty word there. */
  lemma {:induction false} FileTokensExample(text: string)
    requires text == "Cat cat DOG! dog-dog"
    ensures FileTokens(text) == ["cat", "cat", "dog", "", "dog", "dog"]
  {
    ExampleLowered(text);
    var lowered := ToLower(Seqs.Concat(ReadLines(text)));
    ExampleSegments(lowered);
  }
}
