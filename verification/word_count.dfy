/** The counting half of `wordFeqCount`: every token of every file read
    increments its word's count in one map; the first file that cannot be
    read ends the loop. */
module WordCount {
  import opened Wrappers
  import Tokenizer

  /** The word-count table: word to number of occurrences. */
  type Counts = map<string, nat>

  function CountOf(m: Counts, w: string): nat
  {
    if w in m then m[w] else 0
  }

  /** One token seen: its count goes up by one, starting at one for a new
      word. */
  function Increment(m: Counts, w: string): (r: Counts)
    ensures r.Keys == m.Keys + {w}
    ensures r[w] == CountOf(m, w) + 1
    ensures forall v :: v in m && v != w ==> r[v] == m[v]
  {
    if w in m then m[w := m[w] + 1] else m[w := 1]
  }

  /** The inner loop over one file's tokens: each word's count grows by the
      number of times it occurs among the tokens, and only the tokens become
      new keys. */
  function AddTokens(m: Counts, tokens: seq<string>): (r: Counts)
    ensures r.Keys == m.Keys + set t | t in tokens
    ensures forall w :: w in r ==> r[w] == CountOf(m, w) + multiset(tokens)[w]
    decreases |tokens|
  {
    if tokens == [] then m
    else
      HeadAndTail(tokens);
      AddTokens(Increment(m, tokens[0]), tokens[1..])
  }

  lemma {:induction false} HeadAndTail(tokens: seq<string>)
    requires tokens != []
    ensures multiset(tokens) == multiset{tokens[0]} + multiset(tokens[1..])
    ensures (set t | t in tokens) == {tokens[0]} + set t | t in tokens[1..]
  {
    assert tokens == [tokens[0]] + tokens[1..];
  }

  /** All tokens of the given file texts, file after file. */
  function AllTokens(texts: seq<string>): seq<string>
  {
    if texts == [] then [] else Tokenizer.FileTokens(texts[0]) + AllTokens(texts[1..])
  }

  /** The outer loop over the files of the directory, all read
      successfully. */
  function CountTexts(m: Counts, texts: seq<string>): Counts
    decreases |texts|
  {
    if texts == [] then m else CountTexts(AddTokens(m, Tokenizer.FileTokens(texts[0])), texts[1..])
  }

  /** The occurrence table of a bag of words: the reference the counting
      loop is checked against. */
  function Occurrences(bag: multiset<string>): Counts
  {
    map w | w in bag :: bag[w]
  }

  /** Feeding two token lists one after the other is feeding their
      concatenation. */
  lemma {:induction false} AddTokensAppend(m: Counts, a: seq<string>, b: seq<string>)
    ensures AddTokens(m, a + b) == AddTokens(AddTokens(m, a), b)
    decreases |a|
  {
    if a != [] {
      assert (a + b)[0] == a[0];
      assert (a + b)[1..] == a[1..] + b;
      AddTokensAppend(Increment(m, a[0]), a[1..], b);
    } else {
      assert a + b == b;
    }
  }

  /** The file loop feeds the tokens of all files, in order, to the token
      loop. */
  lemma {:induction false} CountTextsFeedsAllTokens(m: Counts, texts: seq<string>)
    ensures CountTexts(m, texts) == AddTokens(m, AllTokens(texts))
    decreases |texts|
  {
    if texts != [] {
      var tokens := Tokenizer.FileTokens(texts[0]);
      CountTextsFeedsAllTokens(AddTokens(m, tokens), texts[1..]);
      AddTokensAppend(m, tokens, AllTokens(texts[1..]));
    }
  }

  /** Counting from an empty table gives, for every word, its total number
      of occurrences across the tokens of all files: the keys are exactly
      the tokens seen, and every count is at least one. */
  lemma {:induction false} CountsAreOccurrences(texts: seq<string>)
    ensures CountTexts(map[], texts) == Occurrences(multiset(AllTokens(texts)))
    ensures forall w :: w in CountTexts(map[], texts) ==> CountTexts(map[], texts)[w] >= 1
  {
    CountTextsFeedsAllTokens(map[], texts);
  }

  lemma {:induction false} AllTokensAppend(a: seq<string>, b: seq<string>)
    ensures AllTokens(a + b) == AllTokens(a) + AllTokens(b)
  {
    if a == [] {
      assert a + b == b;
    } else {
      assert (a + b)[1..] == a[1..] + b;
      AllTokensAppend(a[1..], b);
    }
  }

  lemma {:induction false} RemoveAt(b: seq<string>, k: nat)
    requires k < |b|
    ensures multiset(b[..k] + b[k + 1..]) == multiset(b) - multiset{b[k]}
  {
    assert b == b[..k] + [b[k]] + b[k + 1..];
    assert multiset(b) == multiset(b[..k]) + multiset{b[k]} + multiset(b[k + 1..]);
  }

  lemma {:induction false} AllTokensAt(b: seq<string>, k: nat)
    requires k < |b|
    ensures multiset(AllTokens(b)) ==
            multiset(Tokenizer.FileTokens(b[k])) + multiset(AllTokens(b[..k] + b[k + 1..]))
  {
    assert b == b[..k] + [b[k]] + b[k + 1..];
    AllTokensAppend(b[..k] + [b[k]], b[k + 1..]);
    AllTokensAppend(b[..k], [b[k]]);
    AllTokensAppend(b[..k], b[k + 1..]);
    assert AllTokens([b[k]]) == Tokenizer.FileTokens(b[k]) by {
      assert [b[k]][1..] == [];
    }
  }

  /** The bag of all tokens depends only on which files there are, not on
      the order they are listed in. */
  lemma {:induction false} AllTokensPermutation(a: seq<string>, b: seq<string>)
    requires multiset(a) == multiset(b)
    ensures multiset(AllTokens(a)) == multiset(AllTokens(b))
    decreases |a|
  {
    if a == [] {
      assert |b| == |multiset(b)| == 0;
    } else {
      var f := a[0];
      assert f in multiset(b);
      var k :| 0 <= k < |b| && b[k] == f;
      var rest := b[..k] + b[k + 1..];
      RemoveAt(b, k);
      assert multiset(a) == multiset{f} + multiset(a[1..]) by {
        assert a == [f] + a[1..];
      }
      AllTokensPermutation(a[1..], rest);
      AllTokensAt(b, k);
      assert AllTokens(a) == Tokenizer.FileTokens(f) + AllTokens(a[1..]);
    }
  }

  /** The counts do not depend on the order in which the directory lists
      the files: every increment commutes with every other. */
  lemma CountOrderIndependent(a: seq<string>, b: seq<string>)
    requires multiset(a) == multiset(b)
    ensures CountTexts(map[], a) == CountTexts(map[], b)
  {
    CountsAreOccurrences(a);
    CountsAreOccurrences(b);
    AllTokensPermutation(a, b);
  }

  /** What reading one directory entry gives: its whole text, or an
      IOException somewhere between opening and closing it. */
  datatype FileRead = Read(text: string) | ReadFailed

  /** The texts of the files before the first one that cannot be read. */
  function ReadablePrefix(files: seq<FileRead>): (texts: seq<string>)
    ensures |texts| <= |files|
    ensures forall j :: 0 <= j < |texts| ==> files[j] == Read(texts[j])
    ensures |texts| < |files| ==> files[|texts|] == ReadFailed
  {
    if files == [] || files[0].ReadFailed? then []
    else [files[0].text] + ReadablePrefix(files[1..])
  }

  /** The loop of `wordFeqCount` inside its single try block: the map is
      updated only after a file has been read completely, and the first
      failure ends the loop with the counts so far. A `null` listing (not a
      directory) fails at once and leaves the map empty. */
  function CountListing(listing: Option<seq<FileRead>>): Counts
  {
    match listing
    case None => map[]
    case Some(files) => CountUntilFailure(map[], files)
  }

  function CountUntilFailure(m: Counts, files: seq<FileRead>): Counts
    decreases |files|
  {
    if files == [] then m
    else match files[0]
      case ReadFailed => m
      case Read(text) => CountUntilFailure(AddTokens(m, Tokenizer.FileTokens(text)), files[1..])
  }

  /** The texts whose tokens the report counts. */
  function Counted(listing: Option<seq<FileRead>>): seq<string>
  {
    match listing
    case None => []
    case Some(files) => ReadablePrefix(files)
  }

  lemma {:induction false} CountUntilFailureIsPrefix(m: Counts, files: seq<FileRead>)
    ensures CountUntilFailure(m, files) == CountTexts(m, ReadablePrefix(files))
    decreases |files|
  {
    if files != [] && files[0].Read? {
      CountUntilFailureIsPrefix(AddTokens(m, Tokenizer.FileTokens(files[0].text)), files[1..]);
    }
  }

  /** If file k is the first that cannot be read, the table holds exactly
      the occurrences in files 0 .. k-1: nothing of file k, even if part of
      it was read, and nothing of the files after it. */
  lemma CountListingIsOccurrences(listing: Option<seq<FileRead>>)
    ensures CountListing(listing) == Occurrences(multiset(AllTokens(Counted(listing))))
  {
    if listing.Some? {
      CountUntilFailureIsPrefix(map[], listing.value);
    }
    CountsAreOccurrences(Counted(listing));
  }
}
