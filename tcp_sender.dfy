/** The stand-alone sender thread of the TCP variant, `TCP.Server`: it is
    created for one client and one file name, streams that file with the same
    10000-byte loop as the provider's `send`, and closes the connection. Its
    `main` accepts clients without ever starting a thread for them. */
module TcpSender {
  import opened Wire
  import opened Chunking

  /** The size of each write of `send`. */
  const ChunkSize: nat := 10000

  /** `send` of the stand-alone sender thread, which serves the one file it
      was created with: it writes the file in pieces of 10000 bytes, the
      last holding the remainder, until `curr` reaches the file length. The pieces are the
      file, none is empty or longer than 10000 bytes, all but the last are
      exactly 10000, and there are ceil(length / 10000) of them: none for an
      empty file. After each piece it prints `curr * 100 / length`: one
      report per piece, never decreasing, and 100 only after the last. */
  method Send(contents: seq<byte>) returns (written: seq<seq<byte>>, progress: seq<nat>)
    ensures written == Chunks(contents, ChunkSize)
    ensures Flatten(written) == contents
    ensures forall i :: 0 <= i < |written| ==> 0 < |written[i]| <= ChunkSize
    ensures forall i :: 0 <= i < |written| - 1 ==> |written[i]| == ChunkSize
    ensures (|written| - 1) * ChunkSize < |contents| <= |written| * ChunkSize
    ensures |progress| == |written|
    ensures forall i, j :: 0 <= i <= j < |progress| ==> progress[i] <= progress[j]
    ensures forall i :: 0 <= i < |progress| - 1 ==> progress[i] < 100
    ensures |progress| > 0 ==> progress[|progress| - 1] == 100
  {
    var fileLength := |contents|;
    var curr := 0;
    written, progress := [], [];
    while curr != fileLength
      invariant 0 <= curr <= fileLength
      invariant written + Chunks(contents[curr..], ChunkSize) == Chunks(contents, ChunkSize)
      invariant |progress| == |written|
      invariant |progress| > 0 ==> 0 < fileLength && progress[|progress| - 1] == Percent(curr, fileLength)
      invariant Reports(progress)
      decreases fileLength - curr
    {
      var start := curr;
      var size := ChunkSize;
      if fileLength - curr >= size {
        curr := curr + size;
      } else {
        size := ToInt32(fileLength - curr);
        curr := fileLength;
      }
      var fileContent := contents[start..start + size];
      ChunkAt(contents, ChunkSize, start);
      assert start + size == start + Min(ChunkSize, fileLength - start) == curr;
      assert (written + [fileContent]) + Chunks(contents[curr..], ChunkSize)
          == written + Chunks(contents[start..], ChunkSize);
      written := written + [fileContent];
      PercentMonotone(start, curr, fileLength);
      ReportsAppend(progress, Percent(curr, fileLength));
      progress := progress + [Percent(curr, fileLength)];
    }
    assert contents[curr..] == [];
    ChunksFlatten(contents, ChunkSize);
    ChunksShape(contents, ChunkSize);
    ChunksCount(contents, ChunkSize);
  }
}
