/** The chunk arithmetic of SplitFileUtil: how many chunks a file of
    `fileSize` bytes is cut into, and the offset and length the split loop
    gives each chunk. The utility's static fields (file name, size, chunk
    count) are explicit parameters here. */
module ChunkPlan {
  import opened Wrappers
  import Seqs
  import Decimal

  /** Java `long` division of a non-negative dividend: truncates toward zero. */
  function JavaDiv(a: nat, b: int): int
    requires b != 0
  {
    if b > 0 then a / b else -(a / -b)
  }

  /** Java `long` remainder; it has the sign of the (non-negative) dividend. */
  function JavaRem(a: nat, b: int): int
    requires b != 0
  {
    a - b * JavaDiv(a, b)
  }

  /** `getChunkNum`: the number of chunks, or None where `fileSize % chunkSize`
      throws an ArithmeticException (a zero chunk size and a non-empty file). */
  function ChunkCount(fileSize: nat, chunkSize: int): (r: Option<int>)
    ensures r.None? <==> chunkSize == 0 && fileSize > 0
    ensures fileSize <= chunkSize ==> r == Some(1)
    ensures chunkSize > 0 && fileSize > chunkSize ==>
              r.Some? && r.value >= 2
              && (r.value - 1) * chunkSize < fileSize <= r.value * chunkSize
    ensures chunkSize < 0 ==> r.Some? && r.value <= 1
  {
    if fileSize <= chunkSize then Some(1)
    else if chunkSize == 0 then None
    else if JavaRem(fileSize, chunkSize) > 0 then
      var q := JavaDiv(fileSize, chunkSize);
      assert chunkSize > 0 ==> q * chunkSize < fileSize < (q + 1) * chunkSize;
      Some(q + 1)
    else
      var q := JavaDiv(fileSize, chunkSize);
      assert chunkSize > 0 ==> q * chunkSize == fileSize && q >= 2;
      Some(q)
  }

  /** One chunk of the split: 1-based index, byte offset into the source and
      byte length. */
  datatype ChunkSpec = ChunkSpec(index: int, offset: int, length: int)

  /** The iterations `i .. chunkNum` of the loop in `splitFile`, entered with
      `writtenTotal` bytes already assigned: every chunk but the last is
      `chunkSize` long, the last gets what remains of the file. */
  function PlanFrom(i: int, chunkNum: int, chunkSize: int, fileSize: int, writtenTotal: int): seq<ChunkSpec>
    decreases chunkNum - i
  {
    if i > chunkNum then []
    else
      var size := if i < chunkNum then chunkSize else fileSize - writtenTotal;
      [ChunkSpec(i, writtenTotal, size)] + PlanFrom(i + 1, chunkNum, chunkSize, fileSize, writtenTotal + size)
  }

  /** `splitFile`'s chunk layout: None where the chunk count throws. A single
      chunk has the whole file as its size. */
  function Plan(fileSize: nat, chunkSize: int): Option<seq<ChunkSpec>>
  {
    match ChunkCount(fileSize, chunkSize)
    case None => None
    case Some(n) =>
      var size := if n == 1 then fileSize else chunkSize;
      Some(PlanFrom(1, n, size, fileSize, 0))
  }

  /** The lengths of the chunks of a plan, in order. */
  function Lengths(p: seq<ChunkSpec>): seq<int>
  {
    if p == [] then [] else [p[0].length] + Lengths(p[1..])
  }

  function Sum(xs: seq<int>): int
  {
    if xs == [] then 0 else xs[0] + Sum(xs[1..])
  }

  /** The shape of the loop's output: one spec per index, the nominal size
      for all but the last, offsets advancing by the nominal size. */
  lemma {:induction false} PlanFromShape(i: int, n: int, c: int, f: int, t: int)
    requires i <= n
    ensures var p := PlanFrom(i, n, c, f, t);
      && |p| == n - i + 1
      && (forall j :: 0 <= j < |p| ==> p[j].index == i + j && p[j].offset == t + j * c)
      && (forall j :: 0 <= j < |p| - 1 ==> p[j].length == c)
      && p[|p| - 1].length == f - t - (n - i) * c
    decreases n - i
  {
    if i < n {
      PlanFromShape(i + 1, n, c, f, t + c);
      var p := PlanFrom(i, n, c, f, t);
      var q := PlanFrom(i + 1, n, c, f, t + c);
      assert p == [ChunkSpec(i, t, c)] + q;
      forall j | 1 <= j < |p|
        ensures p[j].index == i + j && p[j].offset == t + j * c
      {
        assert p[j] == q[j - 1];
      }
    }
  }

  /** Chunks follow one another from offset `t` without gap or overlap,
      each of non-negative length, and the last ends at `e`. */
  predicate Chained(p: seq<ChunkSpec>, t: int, e: int)
  {
    if p == [] then t == e
    else p[0].offset == t && p[0].length >= 0 && Chained(p[1..], t + p[0].length, e)
  }

  /** A plan is well formed for a file of `fileSize` bytes when its chunks are
      numbered 1.. and chain from offset 0 to the end of the file. */
  predicate WellFormed(p: seq<ChunkSpec>, fileSize: int)
  {
    && (forall j :: 0 <= j < |p| ==> p[j].index == j + 1)
    && Chained(p, 0, fileSize)
  }

  /** The loop chains its chunks from `writtenTotal` to the end of the file
      as long as no length it hands out is negative. */
  lemma {:induction false} PlanFromChained(i: int, n: int, c: int, f: int, t: int)
    requires i <= n
    requires i < n ==> c >= 0
    requires f - t - (n - i) * c >= 0
    ensures Chained(PlanFrom(i, n, c, f, t), t, f)
    decreases n - i
  {
    var p := PlanFrom(i, n, c, f, t);
    if i < n {
      assert (n - i) * c == c + (n - (i + 1)) * c;
      PlanFromChained(i + 1, n, c, f, t + c);
      assert p[1..] == PlanFrom(i + 1, n, c, f, t + c);
    } else {
      assert p[1..] == PlanFrom(i + 1, n, c, f, f) == [];
    }
  }

  /** In a chained plan each chunk's offset is `t` plus the sum of the
      lengths before it, and all lengths add up to `e - t`. */
  lemma {:induction false} ChainedOffsets(p: seq<ChunkSpec>, t: int, e: int)
    requires Chained(p, t, e)
    ensures forall j :: 0 <= j < |p| ==> p[j].offset == t + Sum(Lengths(p[..j]))
    ensures Sum(Lengths(p)) == e - t
  {
    if p != [] {
      var q := p[1..];
      ChainedOffsets(q, t + p[0].length, e);
      forall j | 0 <= j < |p|
        ensures p[j].offset == t + Sum(Lengths(p[..j]))
      {
        if j == 0 {
          assert p[..j] == [];
        } else {
          assert p[j] == q[j - 1];
          assert p[..j][0] == p[0];
          assert p[..j][1..] == q[..j - 1];
        }
      }
    }
  }

  /** Every chunk of a chained plan lies between `t` and `e`. */
  lemma {:induction false} ChainedBounds(p: seq<ChunkSpec>, t: int, e: int)
    requires Chained(p, t, e)
    ensures t <= e
    ensures forall j :: 0 <= j < |p| ==> t <= p[j].offset <= p[j].offset + p[j].length <= e
  {
    if p != [] {
      ChainedBounds(p[1..], t + p[0].length, e);
      forall j | 1 <= j < |p|
        ensures t <= p[j].offset <= p[j].offset + p[j].length <= e
      {
        assert p[j] == p[1..][j - 1];
      }
    }
  }

  /** Whenever the loop runs, `splitFile` lays the file out as a well-formed
      plan: chunks numbered from 1, the first at offset 0, each starting
      where the previous one ends (at the sum of the lengths before it),
      the lengths summing to the file size. */
  lemma PlanWellFormed(fileSize: nat, chunkSize: int)
    requires Plan(fileSize, chunkSize).Some?
    requires |Plan(fileSize, chunkSize).value| > 0
    ensures WellFormed(Plan(fileSize, chunkSize).value, fileSize)
    ensures var p := Plan(fileSize, chunkSize).value;
      forall j :: 0 <= j < |p| ==> p[j].offset == Sum(Lengths(p[..j]))
    ensures Sum(Lengths(Plan(fileSize, chunkSize).value)) == fileSize
  {
    var n := ChunkCount(fileSize, chunkSize).value;
    var c := if n == 1 then fileSize else chunkSize;
    var p := PlanFrom(1, n, c, fileSize, 0);
    PlanFromShape(1, n, c, fileSize, 0);
    if n > 1 {
      assert chunkSize > 0 && fileSize > chunkSize;
      assert (n - 1) * chunkSize < fileSize;
    }
    PlanFromChained(1, n, c, fileSize, 0);
    ChainedOffsets(p, 0, fileSize);
  }

  /** The layout for a positive chunk size. A chunk count of one gives one
      chunk with the whole file (an empty file gives one empty chunk);
      otherwise every chunk but the last has `chunkSize` bytes and the last
      has the non-empty remainder, at most `chunkSize`. */
  lemma PlanLayout(fileSize: nat, chunkSize: int)
    requires chunkSize > 0
    ensures Plan(fileSize, chunkSize).Some?
    ensures var p := Plan(fileSize, chunkSize).value;
      var n := ChunkCount(fileSize, chunkSize).value;
      && |p| == n
      && (n == 1 ==> p == [ChunkSpec(1, 0, fileSize)])
      && (n > 1 ==>
            && (forall j :: 0 <= j < n - 1 ==> p[j].length == chunkSize)
            && p[n - 1].length == fileSize - (n - 1) * chunkSize
            && 0 < p[n - 1].length <= chunkSize)
  {
    var n := ChunkCount(fileSize, chunkSize).value;
    var c := if n == 1 then fileSize else chunkSize;
    PlanFromShape(1, n, c, fileSize, 0);
    if n > 1 {
      assert (n - 1) * chunkSize < fileSize <= n * chunkSize;
      assert n * chunkSize == (n - 1) * chunkSize + chunkSize;
    }
  }

  /** A negative chunk size never gives more than one chunk. The plan is
      empty for an empty file and for a file at least as long as
      `-chunkSize`, where the truncating division makes the count 0 or
      negative; a shorter non-empty file is one chunk holding all of it. */
  lemma PlanNegative(fileSize: nat, chunkSize: int)
    requires chunkSize < 0
    ensures Plan(fileSize, chunkSize).Some?
    ensures |Plan(fileSize, chunkSize).value| <= 1
    ensures Plan(fileSize, chunkSize).value == [] <==> fileSize == 0 || fileSize >= -chunkSize
    ensures 0 < fileSize < -chunkSize ==> Plan(fileSize, chunkSize).value == [ChunkSpec(1, 0, fileSize)]
  {
  }

  /** The byte windows a plan cuts out of the source, in index order. */
  function Contents<T>(source: seq<T>, p: seq<ChunkSpec>): seq<seq<T>>
    requires forall j :: 0 <= j < |p| ==> 0 <= p[j].offset <= p[j].offset + p[j].length <= |source|
  {
    if p == [] then [] else [source[p[0].offset .. p[0].offset + p[0].length]] + Contents(source, p[1..])
  }

  /** The chunks of a chained plan, concatenated in order, are the bytes of
      the source from `t` to `e`. */
  lemma {:induction false} ContentsChained<T>(source: seq<T>, p: seq<ChunkSpec>, t: int, e: int)
    requires 0 <= t <= e <= |source|
    requires Chained(p, t, e)
    ensures forall j :: 0 <= j < |p| ==> 0 <= p[j].offset <= p[j].offset + p[j].length <= |source|
    ensures Seqs.Concat(Contents(source, p)) == source[t..e]
  {
    ChainedBounds(p, t, e);
    if p != [] {
      var t' := t + p[0].length;
      ContentsChained(source, p[1..], t', e);
      ChainedBounds(p[1..], t', e);
      assert source[t..e] == source[t..t'] + source[t'..e];
    }
  }

  /** The chunks of a well-formed plan, concatenated in index order,
      reproduce the file byte for byte. */
  lemma ContentsReassemble<T>(source: seq<T>, p: seq<ChunkSpec>)
    requires WellFormed(p, |source|)
    ensures forall j :: 0 <= j < |p| ==> 0 <= p[j].offset <= p[j].offset + p[j].length <= |source|
    ensures Seqs.Concat(Contents(source, p)) == source
  {
    ContentsChained(source, p, 0, |source|);
  }

  /** `getChunkSavePath`, with the dated directory given: the multi-chunk
      files are `dir + separator + "part" + i`; a single chunk is written
      beside the source as `filePath + ".bak"`. */
  function ChunkPath(filePath: string, dir: string, sep: string, chunkNum: int, i: nat): string
  {
    if chunkNum == 1 then filePath + ".bak" else dir + sep + "part" + Decimal.NatToDecimal(i)
  }

  /** With several chunks, distinct chunk numbers name distinct files, and
      every name lies in the dated directory. */
  lemma ChunkPathsDistinct(filePath: string, dir: string, sep: string, chunkNum: int, i: nat, k: nat)
    requires chunkNum != 1
    ensures i != k ==> ChunkPath(filePath, dir, sep, chunkNum, i) != ChunkPath(filePath, dir, sep, chunkNum, k)
    ensures ChunkPath(filePath, dir, sep, chunkNum, i)[..|dir + sep + "part"|] == dir + sep + "part"
  {
    var prefix := dir + sep + "part";
    var a := ChunkPath(filePath, dir, sep, chunkNum, i);
    var b := ChunkPath(filePath, dir, sep, chunkNum, k);
    assert a == prefix + Decimal.NatToDecimal(i);
    assert a[|prefix|..] == Decimal.NatToDecimal(i);
    assert b[|prefix|..] == Decimal.NatToDecimal(k);
    Decimal.NatToDecimalInjective(i, k);
  }
}
