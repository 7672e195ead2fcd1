/** The copying half of SplitFileUtil: `writeChunkFile`, which copies one
    chunk out of the source in 1024-byte reads, and `splitFile`, which walks
    the chunks of the plan and writes each one. The source file is a byte
    sequence; the file system's short reads and write failures are
    parameters. */
module ChunkCopy {
  import opened Wrappers
  import Seqs
  import ChunkPlan

  /** The size of the read buffer `b` in `writeChunkFile`. */
  const BufferSize: int := 1024

  function Min(a: int, b: int): int
  {
    if a <= b then a else b
  }

  /** The bytes a chunk of `size` bytes read from `readPos` must hold: the
      source from `readPos` on, cut at `size` bytes or at the end of the
      file, whichever comes first. */
  function Window(source: seq<bv8>, readPos: int, size: int): (w: seq<bv8>)
  {
    if readPos < 0 || readPos >= |source| || size <= 0 then []
    else source[readPos .. Min(readPos + size, |source|)]
  }

  /** `raf.read(b)` at file position `pos`: -1 at the end of the file,
      otherwise any number of bytes from 1 up to the buffer size or what is
      left of the file. The choice is the file system's, so every proof
      about a caller holds for every sequence of short reads. */
  method Read(source: seq<bv8>, pos: int) returns (len: int)
    requires pos >= 0
    ensures pos >= |source| ==> len == -1
    ensures pos < |source| ==> 1 <= len <= Min(BufferSize, |source| - pos)
  {
    if pos >= |source| {
      len := -1;
    } else {
      len :| 1 <= len <= Min(BufferSize, |source| - pos);
    }
  }

  /** The truncated length `len - (writtenSize - chunkSize)` written on the
      read that overshoots the chunk: a part of the buffer that brings the
      chunk to exactly `chunkSize` bytes. */
  function OvershootLength(len: int, writtenBefore: int, chunkSize: int): (k: int)
    requires 0 <= writtenBefore <= chunkSize < writtenBefore + len
    ensures 0 <= k < len
    ensures writtenBefore + k == chunkSize
  {
    len - ((writtenBefore + len) - chunkSize)
  }

  /** `writeChunkFile`: copy `chunkSize` bytes from `readPos` into a new
      chunk file. It fails when the file system faults or the seek position
      is negative; otherwise, whatever lengths the reads return, the chunk
      holds exactly the window of the source, never more than `chunkSize`
      bytes and fewer only when the file ends first. */
  method WriteChunk(source: seq<bv8>, readPos: int, chunkSize: int, ioFault: bool)
    returns (ok: bool, written: seq<bv8>)
    ensures ok <==> !ioFault && readPos >= 0
    ensures ok ==> written == Window(source, readPos, chunkSize)
    ensures ok && readPos <= |source| && chunkSize >= 0 ==>
              |written| == Min(chunkSize, |source| - readPos)
  {
    if ioFault || readPos < 0 {
      return false, [];
    }
    var pos := readPos;
    var writtenSize := 0;
    written := [];
    while true
      invariant pos == readPos + writtenSize
      invariant 0 <= writtenSize
      invariant readPos > |source| ==> writtenSize == 0 && written == []
      invariant readPos <= |source| ==> pos <= |source|
      invariant writtenSize <= chunkSize && readPos <= |source| ==> written == source[readPos .. pos]
      invariant writtenSize == 0 ==> written == []
      invariant writtenSize > chunkSize && writtenSize > 0 ==>
                  0 <= chunkSize && readPos + chunkSize < pos <= |source|
                  && written == source[readPos .. readPos + chunkSize]
      decreases |source| - pos
    {
      var len := Read(source, pos);
      if !(len > 0 && writtenSize <= chunkSize) {
        break;
      }
      var buffer := source[pos .. pos + len];
      pos := pos + len;
      writtenSize := writtenSize + len;
      if writtenSize <= chunkSize {
        written := written + buffer;
      } else {
        var k := OvershootLength(len, writtenSize - len, chunkSize);
        assert source[readPos .. readPos + chunkSize] == source[readPos .. pos - len] + buffer[..k];
        written := written + buffer[..k];
      }
    }
    ok := true;
  }

  /** A chunk file: where it was written and what it holds. */
  datatype ChunkFile = ChunkFile(path: string, data: seq<bv8>)

  /** What `splitFile` leaves behind: every chunk written (`true`), the
      chunks before the first failed one (`false`), or the
      ArithmeticException of a zero chunk size on a non-empty file. */
  datatype SplitOutcome =
    | Split(files: seq<ChunkFile>)
    | WriteFailed(files: seq<ChunkFile>, failedChunk: int)
    | DivideByZero
  {
    function Written(): seq<ChunkFile>
    {
      if DivideByZero? then [] else files
    }
  }

  /** The contents of a sequence of chunk files, in order. */
  function ChunkDatas(files: seq<ChunkFile>): seq<seq<bv8>>
  {
    if files == [] then [] else [files[0].data] + ChunkDatas(files[1..])
  }

  /** Files holding the windows of a plan hold the plan's contents. */
  lemma {:induction false} ChunkDatasAreContents(source: seq<bv8>, p: seq<ChunkPlan.ChunkSpec>, files: seq<ChunkFile>)
    requires |files| == |p|
    requires forall j :: 0 <= j < |p| ==> 0 <= p[j].offset <= p[j].offset + p[j].length <= |source|
    requires forall j :: 0 <= j < |p| ==> files[j].data == Window(source, p[j].offset, p[j].length)
    ensures ChunkDatas(files) == ChunkPlan.Contents(source, p)
  {
    if p != [] {
      assert files[0].data == source[p[0].offset .. p[0].offset + p[0].length];
      ChunkDatasAreContents(source, p[1..], files[1..]);
    }
  }

  /** The file `splitFile` writes for the chunk `spec` of a plan with
      `chunkNum` chunks: its name and its window of the source. */
  function PlannedFile(source: seq<bv8>, filePath: string, dir: string, sep: string, chunkNum: int,
                       spec: ChunkPlan.ChunkSpec): ChunkFile
    requires spec.index >= 1
  {
    ChunkFile(ChunkPlan.ChunkPath(filePath, dir, sep, chunkNum, spec.index),
              Window(source, spec.offset, spec.length))
  }

  /** `files` are the first `|files|` chunks of the plan `p`, as planned. */
  ghost predicate WrittenAsPlanned(files: seq<ChunkFile>, p: seq<ChunkPlan.ChunkSpec>, source: seq<bv8>,
                                   filePath: string, dir: string, sep: string, chunkNum: int)
  {
    && |files| <= |p|
    && forall j :: 0 <= j < |files| ==>
         p[j].index == j + 1 && files[j] == PlannedFile(source, filePath, dir, sep, chunkNum, p[j])
  }

  /** `splitFile` over a source of `|source|` bytes, with the dated chunk
      directory `dir`, the platform separator `sep`, and the chunk numbers
      whose write throws in `failing`. The i-th file written is the i-th
      chunk of the plan, named by `ChunkPath`; the split stops at the first
      failing chunk and keeps what it wrote before it; when every chunk is
      written their concatenation is the source. */
  method SplitFile(source: seq<bv8>, filePath: string, dir: string, sep: string, chunkSize: int, failing: set<int>)
    returns (outcome: SplitOutcome)
    ensures outcome.DivideByZero? <==> chunkSize == 0 && |source| > 0
    ensures !outcome.DivideByZero? ==>
              WrittenAsPlanned(outcome.Written(), ChunkPlan.Plan(|source|, chunkSize).value, source,
                               filePath, dir, sep, ChunkPlan.ChunkCount(|source|, chunkSize).value)
    ensures outcome.Split? ==>
              |outcome.files| == |ChunkPlan.Plan(|source|, chunkSize).value|
              && forall i :: 1 <= i <= |outcome.files| ==> i !in failing
    ensures outcome.WriteFailed? ==>
              && outcome.failedChunk == |outcome.files| + 1
              && outcome.failedChunk <= |ChunkPlan.Plan(|source|, chunkSize).value|
              && outcome.failedChunk in failing
              && forall i :: 1 <= i < outcome.failedChunk ==> i !in failing
    ensures outcome.Split? && (chunkSize > 0 || |outcome.files| > 0) ==>
              Seqs.Concat(ChunkDatas(outcome.files)) == source
  {
    var count := ChunkPlan.ChunkCount(|source|, chunkSize);
    if count.None? {
      return DivideByZero;
    }
    var chunkNum := count.value;
    var fileSize := |source|;
    var size := if chunkNum == 1 then fileSize else chunkSize;
    assert chunkNum > 1 ==> size > 0;
    ghost var p := ChunkPlan.Plan(fileSize, chunkSize).value;
    var files: seq<ChunkFile> := [];
    var writtenTotal := 0;
    var i := 1;
    while i <= chunkNum
      invariant 1 <= i && 0 <= writtenTotal
      invariant |files| == i - 1 <= |p|
      invariant p[i - 1..] == ChunkPlan.PlanFrom(i, chunkNum, size, fileSize, writtenTotal)
      invariant forall j :: 1 <= j < i ==> j !in failing
      invariant WrittenAsPlanned(files, p, source, filePath, dir, sep, chunkNum)
      decreases chunkNum - i
    {
      var writtenSize := if i < chunkNum then size else fileSize - writtenTotal;
      var chunkSavePath := ChunkPlan.ChunkPath(filePath, dir, sep, chunkNum, i);
      assert p[i - 1] == ChunkPlan.ChunkSpec(i, writtenTotal, writtenSize);
      var ok, data := WriteChunk(source, writtenTotal, writtenSize, i in failing);
      if !ok {
        return WriteFailed(files, i);
      }
      files := files + [ChunkFile(chunkSavePath, data)];
      assert p[i..] == p[i - 1..][1..];
      writtenTotal := writtenTotal + writtenSize;
      i := i + 1;
    }
    assert |p| == |files| by {
      assert p[i - 1..] == [];
    }
    outcome := Split(files);
    SplitReassembles(source, filePath, dir, sep, chunkSize, files);
  }

  /** A complete split, when it wrote any chunk at all, reproduces the
      source. */
  lemma SplitReassembles(source: seq<bv8>, filePath: string, dir: string, sep: string, chunkSize: int,
                         files: seq<ChunkFile>)
    requires ChunkPlan.Plan(|source|, chunkSize).Some?
    requires WrittenAsPlanned(files, ChunkPlan.Plan(|source|, chunkSize).value, source,
                              filePath, dir, sep, ChunkPlan.ChunkCount(|source|, chunkSize).value)
    requires |files| == |ChunkPlan.Plan(|source|, chunkSize).value|
    ensures chunkSize > 0 || |files| > 0 ==> Seqs.Concat(ChunkDatas(files)) == source
  {
    var p := ChunkPlan.Plan(|source|, chunkSize).value;
    if chunkSize > 0 {
      ChunkPlan.PlanLayout(|source|, chunkSize);
    }
    if |p| > 0 {
      ChunkPlan.PlanWellFormed(|source|, chunkSize);
      ChunkPlan.ContentsReassemble(source, p);
      ChunkDatasAreContents(source, p, files);
    }
  }
}
