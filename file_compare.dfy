/**
 * Content comparison of two files (`file_content_sync` in main.py).
 *
 * Sizes are compared first; only files of one size are opened and read in
 * lockstep, a fixed-size chunk from each per step, until a pair of chunks
 * differs or both reads come back empty at end of file.
 */
module FileCompare {
  import opened FileSystem

  /** Bytes asked of each file per read (FILE_SIZE_CHUNK). */
  const ChunkSize: nat := 4096

  function Min(a: int, b: int): int { if a <= b then a else b }

  /** The index of the first byte at which two different files of one size differ. */
  function FirstDiff(a: seq<byte>, b: seq<byte>): (i: nat)
    requires |a| == |b| && a != b
    ensures i < |a| && a[i] != b[i]
    ensures a[..i] == b[..i]
  {
    if a[0] != b[0] then 0
    else
      assert a == [a[0]] + a[1..] && b == [b[0]] + b[1..];
      1 + FirstDiff(a[1..], b[1..])
  }

  /** A file opened for reading: its content and the offset of the next read. */
  class Reader {
    const data: seq<byte>
    var pos: nat

    constructor Open(content: seq<byte>)
      ensures data == content && pos == 0
    {
      data := content;
      pos := 0;
    }

    /** Reads up to `n` bytes from the current offset; the empty chunk means end of file. */
    method Read(n: nat) returns (chunk: seq<byte>)
      requires pos <= |data|
      modifies this
      ensures pos == old(pos) + |chunk| <= |data|
      ensures chunk == data[old(pos)..Min(old(pos) + n, |data|)]
    {
      var end := Min(pos + n, |data|);
      chunk := data[pos..end];
      pos := end;
    }
  }

  /** Integer division by the chunk size, pinned down by bounds. */
  lemma ChunkIndex(x: int, k: int)
    requires ChunkSize * k <= x < ChunkSize * (k + 1)
    ensures x / ChunkSize == k
  {
  }

  /**
   * True exactly when the two files hold the same bytes. `chunks` counts the
   * reads made of each file: none when the sizes differ; for files of one
   * size that differ, every chunk up to and including the one holding the
   * first differing byte; for equal files, every chunk and then the one empty
   * read that meets end of file.
   */
  method FileContentSync(src: seq<byte>, dst: seq<byte>) returns (same: bool, ghost chunks: nat)
    ensures same <==> src == dst
    ensures |src| != |dst| ==> !same && chunks == 0
    ensures |src| == |dst| && src != dst ==> chunks == FirstDiff(src, dst) / ChunkSize + 1
    ensures src == dst ==> chunks == (|src| + ChunkSize - 1) / ChunkSize + 1
  {
    chunks := 0;
    if |src| != |dst| {
      return false, chunks;
    }
    var f1 := new Reader.Open(src);
    var f2 := new Reader.Open(dst);
    while true
      invariant f1 != f2 && f1.data == src && f2.data == dst
      invariant f1.pos == f2.pos == Min(ChunkSize * chunks, |src|)
      invariant chunks == 0 || ChunkSize * (chunks - 1) < |src|
      invariant src[..f1.pos] == dst[..f1.pos]
      decreases |src| - f1.pos
    {
      ghost var at := f1.pos;
      var r1 := f1.Read(ChunkSize);
      var r2 := f2.Read(ChunkSize);
      chunks := chunks + 1;
      if r1 != r2 {
        assert at == ChunkSize * (chunks - 1);
        assert src[..at] == dst[..at];
        assert src != dst by {
          var j :| 0 <= j < |r1| && r1[j] != r2[j];
          assert src[at + j] != dst[at + j];
        }
        ghost var i := FirstDiff(src, dst);
        assert at <= i < at + ChunkSize;
        ChunkIndex(i, chunks - 1);
        return false, chunks;
      }
      if r1 == [] {
        ChunkIndex(|src| + ChunkSize - 1, chunks - 1);
        assert src == src[..at] && dst == dst[..at];
        break;
      }
      assert src[..f1.pos] == src[..at] + r1 && dst[..f1.pos] == dst[..at] + r2;
    }
    return true, chunks;
  }
}
