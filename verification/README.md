# WordFreqCount in Dafny

A model of the two cores of WordFreqCount, a small Java utility that first
splits a large text file into fixed-size chunk files and then counts the
English words in the chunk directory:

- **SplitFileUtil**
  - `getChunkNum`: the chunk count, with Java `long` division semantics.
  - `splitFile`: the loop that gives each chunk an offset and a length, and
    stops at the first failed write.
  - `writeChunkFile`: the buffered copy, in 1024-byte reads, with the
    overshooting read truncated.
  - Chunk naming: `getChunkSavePath` names chunk i `part` + i in the dated
    directory, which is a parameter. A single chunk gets `filePath + ".bak"`
    instead, a choice `splitFile` makes itself.
- **WordFreqCountUtil.wordFeqCount**
  - Each file's lines are joined without a separator.
  - The text is lowercased.
  - It is split with `String.split("[^A-Za-z]")` (limit 0).
  - Every token is counted in a map.
  - The map is reported as `word count` lines, in `TreeMap` key order.

The source file is a `seq<bv8>`. Each `RandomAccessFile.read` is a
nondeterministic choice of 1 to min(1024, remaining) bytes, so every
property of the copy holds for every sequence of short reads. File texts are
strings, and the directory listing is an optional sequence of per-file read
results.

Modules, one per file:

- `Wrappers`: `Option`.
- `Seqs`: concatenation of sequences.
- `Decimal`: decimal numerals, as `"part" + i` and `key + " " + value`
  render integers.
- `ChunkPlan`: the chunk count, the chunk layout, and chunk paths.
- `ChunkCopy`: `writeChunkFile` and `splitFile`.
- `Tokenizer`: joining lines, lowercasing, and Java's limit-0 split.
- `WordCount`: the count map and the loop over the directory.
- `Report`: TreeMap order and the report lines.

Two consequences of the code are worth stating up front:

- The pattern `[^A-Za-z]` matches one character at a time, so `"! "` is two
  delimiters with an empty token between them. `"Cat cat DOG! dog-dog"` gives
  `cat, cat, dog, "", dog, dog` (`Tokenizer.FileTokensExample`), and the
  empty word is counted and reported like any other word.
- There is one `try` around the whole file loop, so the first failed read
  ends the loop. The counts are those of the files before it
  (`WordCount.CountListingIsOccurrences`).

## Model

| member | source | states |
|---|---|---|
| ChunkPlan.ChunkCount | WordFreqCount/src/utils/SplitFileUtil.java:42-52 | Fails with a division by zero exactly when the chunk size is 0 and the file is not empty. The count is 1 when the file fits in one chunk. Otherwise, for a positive chunk size, it is the ceiling n >= 2 with (n-1)·chunkSize < fileSize <= n·chunkSize. A negative chunk size never gives more than one chunk. |
| ChunkPlan.PlanFromShape | WordFreqCount/src/utils/SplitFileUtil.java:139-144 | The loop from chunk i to chunkNum emits one chunk per index. Offsets advance by the nominal size, every chunk but the last has the nominal size, and the last gets what remains of the file. |
| ChunkPlan.PlanFromChained | WordFreqCount/src/utils/SplitFileUtil.java:139-155 | While no length handed out is negative, the chunks follow one another from the starting offset to the end of the file, without gap or overlap. |
| ChunkPlan.ChainedOffsets | WordFreqCount/src/utils/SplitFileUtil.java:136-154 | In chained chunks, each offset is the start plus the sum of the lengths before it, and the lengths add up to the covered span. |
| ChunkPlan.PlanWellFormed | WordFreqCount/src/utils/SplitFileUtil.java:135-155 | When the loop runs, the chunks are numbered from 1 and start at offset 0. Each one's offset is the sum of the lengths of the chunks before it, and the lengths sum exactly to the file size. |
| ChunkPlan.PlanLayout | WordFreqCount/src/utils/SplitFileUtil.java:135-144 | For a positive chunk size there are exactly chunkNum chunks. A single chunk is the whole file, including an empty file. Otherwise all chunks but the last have chunkSize bytes, and the last has fileSize-(chunkNum-1)·chunkSize bytes, which is > 0 and <= chunkSize. |
| ChunkPlan.PlanNegative | WordFreqCount/src/utils/SplitFileUtil.java:42-52 | A negative chunk size never throws and plans at most one chunk. The plan is empty exactly for an empty file or a file of at least -chunkSize bytes; a shorter non-empty file is a single chunk holding the whole file. |
| ChunkPlan.ContentsReassemble | WordFreqCount/src/utils/SplitFileUtil.java:139-155 | The chunks of a well-formed layout lie inside the file, and their bytes, concatenated in index order, are the file. |
| ChunkPlan.ChunkPathsDistinct | WordFreqCount/src/utils/SplitFileUtil.java:75-79 | With several chunks, different chunk numbers give different paths, and each path starts with dir + separator + "part". |
| ChunkCopy.Read | WordFreqCount/src/utils/SplitFileUtil.java:101 | A read returns -1 at the end of the file; otherwise it returns 1 to min(1024, remaining) bytes. |
| ChunkCopy.OvershootLength | WordFreqCount/src/utils/SplitFileUtil.java:101-108 | On the read that passes chunkSize, the truncated length lies in [0, len) and brings the written total to exactly chunkSize. |
| ChunkCopy.WriteChunk | WordFreqCount/src/utils/SplitFileUtil.java:90-123 | Fails exactly on an I/O fault or a negative seek position. Otherwise, for every sequence of short reads, the chunk holds exactly source[readPos .. min(readPos+chunkSize, fileSize)]. Its length is min(chunkSize, fileSize-readPos), never more than chunkSize. |
| ChunkCopy.SplitFile | WordFreqCount/src/utils/SplitFileUtil.java:132-157 | Throws for a zero chunk size on a non-empty file. The i-th file written is the i-th planned chunk, named by the chunk path. The split fails exactly at the first failing chunk, writes nothing after it, and keeps the earlier chunks. A failing chunk number is always within the plan, so a successful split has written every planned chunk. The written chunks then reassemble the source, except when a negative chunk size plans no chunk for a non-empty file, which happens exactly when fileSize >= -chunkSize (size 5, chunk size -2 gives a split with no files; size 1, chunk size -2 gives one chunk, which reassembles). |
| ChunkCopy.SplitReassembles | WordFreqCount/src/utils/SplitFileUtil.java:139-156 | When every planned chunk has been written, the chunk contents concatenated in index order are the source. The one exception is a negative chunk size that plans no chunk at all. |
| Decimal.NatToDecimal | WordFreqCount/src/utils/SplitFileUtil.java:78 | The numeral of a count or chunk number is non-empty and all digits, with a leading zero only for 0. |
| Decimal.DecimalRoundTrip | WordFreqCount/src/utils/WordFreqCountUtil.java:65 | Reading back the numeral of n gives n. |
| Decimal.NatToDecimalInjective | WordFreqCount/src/utils/SplitFileUtil.java:78 | Different numbers have different numerals. |
| Tokenizer.LineEnd | WordFreqCount/src/utils/WordFreqCountUtil.java:38 | The first line ends at the first `\r` or `\n`, or at the end of the text; it contains no line break. |
| Tokenizer.JoinedLinesStripBreaks | WordFreqCount/src/utils/WordFreqCountUtil.java:36-40 | Appending the lines readLine returns gives the text with every `\r` and `\n` removed and nothing else changed. |
| Tokenizer.ToLowerProperties | WordFreqCount/src/utils/WordFreqCountUtil.java:42 | Lowercasing keeps letters letters and delimiters unchanged, leaves no upper-case letter, and is idempotent. Every character either stays as it is or moves up by 32, so `a`-`z` are unchanged and `A`-`Z` become `a`-`z`. |
| Tokenizer.Segments | WordFreqCount/src/utils/WordFreqCountUtil.java:43 | There is one more piece than there are pattern matches, and every piece is a run of letters. |
| Tokenizer.SegmentsRejoin | WordFreqCount/src/utils/WordFreqCountUtil.java:43 | The pieces, put back together with the matched delimiters between them, give the input. |
| Tokenizer.SegmentsUnique | WordFreqCount/src/utils/WordFreqCountUtil.java:43 | Conversely, any way of writing the input as letter runs separated by single non-letters is the split's own. |
| Tokenizer.SegmentsLetters | WordFreqCount/src/utils/WordFreqCountUtil.java:43 | The pieces hold exactly the letters of the input, in order. |
| Tokenizer.DropTrailingEmpty | WordFreqCount/src/utils/WordFreqCountUtil.java:43 | The result is a prefix, and everything cut off is empty; the last token kept is not empty. |
| Tokenizer.JavaSplitTokensAreLetters | WordFreqCount/src/utils/WordFreqCountUtil.java:43 | Every token is a letter run, possibly empty. Input without a match comes back whole. |
| Tokenizer.JavaSplitDropsOnlyTrailingEmpty | WordFreqCount/src/utils/WordFreqCountUtil.java:43 | With a match, the tokens are the pieces minus only trailing empty ones. |
| Tokenizer.JavaSplitKeepsLetters | WordFreqCount/src/utils/WordFreqCountUtil.java:43 | The tokens, concatenated, are all the letters of the input, in order. |
| Tokenizer.JavaSplitEmpty | WordFreqCount/src/utils/WordFreqCountUtil.java:43 | The empty text gives one empty token. |
| Tokenizer.JavaSplitLeadingDelimiter | WordFreqCount/src/utils/WordFreqCountUtil.java:43 | For any text that starts with a delimiter and holds at least one letter, the first token is empty and at least one more token follows. |
| Tokenizer.JavaSplitAdjacentDelimiters | WordFreqCount/src/utils/WordFreqCountUtil.java:43 | For any text a, two delimiters and a text b holding a letter, the token right after the pieces of a (index one more than the number of delimiters in a) is empty: two adjacent delimiters enclose an empty token whenever letters follow them. |
| Tokenizer.JavaSplitOnlyDelimiters | WordFreqCount/src/utils/WordFreqCountUtil.java:43 | Any non-empty text made only of delimiters gives no token at all. |
| Tokenizer.FileTokensAreWords | WordFreqCount/src/utils/WordFreqCountUtil.java:36-43 | Every token of a file is empty or a run of a-z, so no token holds a delimiter, a space or a line break. |
| Tokenizer.FileTokensExample | WordFreqCount/src/utils/WordFreqCountUtil.java:36-43 | `"Cat cat DOG! dog-dog"` gives `cat, cat, dog, "", dog, dog`. |
| WordCount.Increment | WordFreqCount/src/utils/WordFreqCountUtil.java:46-52 | One token raises its word's count by one, or adds the word with count 1. No other entry changes. |
| WordCount.AddTokens | WordFreqCount/src/utils/WordFreqCountUtil.java:45-53 | After a file's tokens, each word's count has grown by its number of occurrences among them, and the new keys are exactly those tokens. |
| WordCount.AddTokensAppend | WordFreqCount/src/utils/WordFreqCountUtil.java:35-53 | Counting two token lists one after the other is counting their concatenation. |
| WordCount.CountTextsFeedsAllTokens | WordFreqCount/src/utils/WordFreqCountUtil.java:35-53 | The loop over the files counts the tokens of all files, file after file. |
| WordCount.CountsAreOccurrences | WordFreqCount/src/utils/WordFreqCountUtil.java:35-53 | From an empty map, the keys are exactly the tokens seen, and each count is the word's total number of occurrences across all files, at least 1. |
| WordCount.AllTokensPermutation | WordFreqCount/src/utils/WordFreqCountUtil.java:35-43 | Listing the same files in another order gives the same bag of tokens. |
| WordCount.CountOrderIndependent | WordFreqCount/src/utils/WordFreqCountUtil.java:35-53 | When every file is read, the final map does not depend on the order in which the directory lists the files. |
| WordCount.ReadablePrefix | WordFreqCount/src/utils/WordFreqCountUtil.java:34-57 | The texts counted are those of the files before the first unreadable one, and that file is unreadable. |
| WordCount.CountUntilFailureIsPrefix | WordFreqCount/src/utils/WordFreqCountUtil.java:34-57 | The loop with its single catch counts exactly the readable files before the first failure. |
| WordCount.CountListingIsOccurrences | WordFreqCount/src/utils/WordFreqCountUtil.java:29-57 | If file k is the first that cannot be read, the map holds exactly the occurrences in files 0..k-1. A path that is not a directory gives an empty map. |
| Report.LexLessIrreflexive | WordFreqCount/src/utils/WordFreqCountUtil.java:59 | No word sorts before itself under compareTo. |
| Report.LexLessTransitive | WordFreqCount/src/utils/WordFreqCountUtil.java:59 | The compareTo order is transitive. |
| Report.LexLessTotal | WordFreqCount/src/utils/WordFreqCountUtil.java:59 | Any two different words are ordered one way or the other. |
| Report.MinWord | WordFreqCount/src/utils/WordFreqCountUtil.java:59 | The TreeMap's first key is in the key set and sorts before every other key. |
| Report.SortedEntries | WordFreqCount/src/utils/WordFreqCountUtil.java:59-64 | The entries are strictly ascending by compareTo, so there are no duplicates. There is one entry per map key, with that key's count, and every key appears. |
| Report.FormatLineRoundTrip | WordFreqCount/src/utils/WordFreqCountUtil.java:65 | For a word without a space, the line `word + " " + count` parses back to the word and the count. |
| Report.ReportLinesReadBack | WordFreqCount/src/utils/WordFreqCountUtil.java:64-68 | There is one line per entry, and each line reads back as its entry. |
| Report.AllTokensAreWords | WordFreqCount/src/utils/WordFreqCountUtil.java:35-43 | Every counted token, across all files, is empty or lower-case letters. |
| Report.WordFreqCount | WordFreqCount/src/utils/WordFreqCountUtil.java:28-82 | The entries are strictly ascending. Line i is exactly the word of entry i, a space and its count in decimal, and reads back as that entry. Each word is a token of the files read before the first failure, and its count is its number of occurrences there, at least 1. Every such token has a line. |

## Left out

- File-system work is not modelled: `File.length`, opening, seeking and closing streams, `listFiles`, and creating the dated directory (`getChunkSaveDirectory`). File contents are sequences, and `listFiles` is an optional list of per-file read results.
- The date stamps from `SimpleDateFormat` are not modelled. The chunk directory is one parameter `dir` for the whole split, so a date change in the middle of a split is not modelled. The report file name (`"wordCount" + HHmmSS + ".txt"`) is not modelled either.
- The `finally` blocks that close streams are not modelled (SplitFileUtil.java:113-121, WordFreqCountUtil.java:73-79). Neither is the `NullPointerException` on a null writer when the report file cannot be created. The model has no report-writing failure.
- `generateTestData`, both `main` methods and the test driver are not modelled. They are demo code with hard-coded paths.
- `lastIndexOf("\\")` returning -1 for a path without a backslash is not modelled. In Java this makes `substring` throw in `getChunkSaveDirectory`. The model takes the directory as given.
- Integer widths are not modelled. There is no overflow of the `int` loop counter against the `long` chunk count, of the `long` offsets, or of the `Integer` word counts; the model uses unbounded integers. The `(int)` cast at SplitFileUtil.java:106 is exact, because the excess is at most one read of 1024 bytes.
- `toLowerCase` is modelled for ASCII only. Unicode and locale cases, such as the Kelvin sign, are not modelled.
- The charset `FileReader` decodes with is not modelled. A file text is a string of characters.
- A directory entry that cannot be opened as a file, such as a subdirectory, is modelled only as a failed read. A report left in the directory by an earlier run is an ordinary readable file, and its words are counted like any other text; its digits and spaces are delimiters.
- ChunkCopy.WriteChunk: a failure is one flag for the whole call. The bytes a failing call may already have written to its chunk file are not tracked.
- ChunkCopy.SplitFile: the failed chunk's partially written file is not returned, only the chunks before it.
