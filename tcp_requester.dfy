/** The requester side of the TCP variant, `TCP.Client.Client`: read READY
    and SIZES, send `SEND <id>`, read the digest line, decode the flagged
    frames of the file, and answer OK or ERROR; `clientProcess` repeats the
    request while the answer is ERROR.

    The socket's input is seen through two finite sequences: the lines the
    `BufferedReader` returns, and what each raw `read` of the input stream
    returns. `eof` says whether the stream ends after them or more may still
    come (the source blocks). The socket's open/closed state is carried
    explicitly, since every completed request closes it. */
module TcpRequester {
  import opened Wire

  /** The size of the reused receive buffer. */
  const BufferSize: nat := 10001

  /** What one successful `read(contents)` can deliver: at least one byte
      and no more than the buffer holds. */
  predicate WellFormedSegments(segments: seq<seq<byte>>)
  {
    forall i :: 0 <= i < |segments| ==> 1 <= |segments[i]| <= BufferSize
  }

  /** A read whose first byte is 1 is the last frame of the file. */
  predicate IsLast(segment: seq<byte>)
    requires |segment| >= 1
  {
    segment[0] == 1
  }

  /** The payloads of a run of segments: each without its flag byte. */
  function Payloads(segments: seq<seq<byte>>): (ps: seq<seq<byte>>)
    requires WellFormedSegments(segments)
    ensures |ps| == |segments| && forall i :: 0 <= i < |segments| ==> ps[i] == segments[i][1..]
  {
    seq(|segments|, i requires 0 <= i < |segments| && WellFormedSegments(segments) => segments[i][1..])
  }

  /** `receiveFile`'s frame decoding: write every read without its flag byte
      and stop after the first read flagged last. When the stream ends first,
      the buffer keeps the previous read, `read` gives -1, and the write of
      -2 bytes throws. */
  function Frames(segments: seq<seq<byte>>, eof: bool): (r: Reception)
    requires WellFormedSegments(segments)
    ensures |r.rest| <= |segments| && WellFormedSegments(r.rest)
    decreases |segments|
  {
    if |segments| == 0 then Reception([], if eof then Thrown(IndexOutOfRange) else Blocked, [])
    else if IsLast(segments[0]) then Reception(segments[0][1..], Done(()), segments[1..])
    else After(segments[0][1..], Frames(segments[1..], eof))
  }

  /** The decoder completes by consuming the segments up to and including
      the first one flagged last, and no further. */
  lemma {:induction false} FramesStopAtFlag(segments: seq<seq<byte>>, eof: bool)
    requires WellFormedSegments(segments)
    ensures Frames(segments, eof).outcome.Done? ==>
      && var k := |segments| - |Frames(segments, eof).rest|;
         && 0 < k && IsLast(segments[k - 1]) && (forall i :: 0 <= i < k - 1 ==> !IsLast(segments[i]))
         && Frames(segments, eof).rest == segments[k..]
    decreases |segments|
  {
    if |segments| > 0 && !IsLast(segments[0]) {
      FramesStopAtFlag(segments[1..], eof);
      var r := Frames(segments, eof);
      if r.outcome.Done? {
        var k := |segments| - |r.rest|;
        assert segments[1..][k - 1..] == segments[k..];
        assert segments[k - 1] == segments[1..][k - 2];
        forall i | 0 <= i < k - 1 ensures !IsLast(segments[i]) {
          if i > 0 { assert segments[i] == segments[1..][i - 1]; }
        }
      }
    }
  }

  /** Without a flagged segment the decoder never completes: it consumes
      everything and then waits for more, or throws at the end of the stream. */
  lemma {:induction false} FramesWithoutFlag(segments: seq<seq<byte>>, eof: bool)
    requires WellFormedSegments(segments)
    ensures !Frames(segments, eof).outcome.Done? ==>
      && (forall i :: 0 <= i < |segments| ==> !IsLast(segments[i]))
      && Frames(segments, eof).outcome == (if eof then Thrown(IndexOutOfRange) else Blocked)
      && Frames(segments, eof).rest == []
    decreases |segments|
  {
    if |segments| > 0 && !IsLast(segments[0]) {
      FramesWithoutFlag(segments[1..], eof);
      if !Frames(segments, eof).outcome.Done? {
        forall i | 0 <= i < |segments| ensures !IsLast(segments[i]) {
          if i > 0 { assert segments[i] == segments[1..][i - 1]; }
        }
      }
    }
  }

  /** What the decoder writes is the payloads of the segments it consumed,
      in order: one byte fewer than each segment delivered. */
  lemma {:induction false} FramesWritePayloads(segments: seq<seq<byte>>, eof: bool)
    requires WellFormedSegments(segments)
    ensures Frames(segments, eof).written
         == Flatten(Payloads(segments[..|segments| - |Frames(segments, eof).rest|]))
    decreases |segments|
  {
    if |segments| > 0 {
      var k := |segments| - |Frames(segments, eof).rest|;
      if IsLast(segments[0]) {
        PayloadsFirst(segments, 1);
      } else {
        FramesWritePayloads(segments[1..], eof);
        PayloadsFirst(segments, k);
      }
    }
  }

  /** The number of bytes a run of reads delivered, flag bytes included. */
  function ReadTotal(segments: seq<seq<byte>>): nat
  {
    if |segments| == 0 then 0 else |segments[0]| + ReadTotal(segments[1..])
  }

  /** Each read contributes `curr - 1` bytes: the payloads together are one
      byte per read shorter than everything read. */
  lemma {:induction false} PayloadsLength(segments: seq<seq<byte>>)
    requires WellFormedSegments(segments)
    ensures |Flatten(Payloads(segments))| == ReadTotal(segments) - |segments|
    decreases |segments|
  {
    if |segments| > 0 {
      PayloadsLength(segments[1..]);
      assert Payloads(segments)[1..] == Payloads(segments[1..]);
    }
  }

  /** The payloads of the first k segments, the first one split off. */
  lemma PayloadsFirst(segments: seq<seq<byte>>, k: nat)
    requires WellFormedSegments(segments) && 0 < k <= |segments|
    ensures Flatten(Payloads(segments[..k])) == segments[0][1..] + Flatten(Payloads(segments[1..][..k - 1]))
  {
    var ps := Payloads(segments[..k]);
    assert ps[0] == segments[0][1..];
    assert ps[1..] == Payloads(segments[1..][..k - 1]);
  }

  /** `ins.read(contents)`: the bytes of one read land at the front of the
      reused buffer; the rest of it keeps what an earlier read left there. */
  method ReadInto(contents: array<byte>, segment: seq<byte>) returns (curr: int)
    requires 1 <= |segment| <= contents.Length
    modifies contents
    ensures curr == |segment| && contents[..curr] == segment
    ensures forall i :: curr <= i < contents.Length ==> contents[i] == old(contents[i])
  {
    var i := 0;
    while i < |segment|
      invariant 0 <= i <= |segment|
      invariant contents[..i] == segment[..i]
      invariant forall j :: |segment| <= j < contents.Length ==> contents[j] == old(contents[j])
    {
      contents[i] := segment[i];
      i := i + 1;
    }
    curr := |segment|;
  }

  /** The decoder from the `j`-th segment on, one step unfolded, with
      `written` already out before it. */
  lemma FramesAt(segments: seq<seq<byte>>, j: nat, eof: bool, written: seq<byte>)
    requires WellFormedSegments(segments) && j < |segments|
    ensures After(written, Frames(segments[j..], eof))
         == if IsLast(segments[j]) then Reception(written + segments[j][1..], Done(()), segments[j + 1..])
            else After(written + segments[j][1..], Frames(segments[j + 1..], eof))
  {
    assert segments[j..][0] == segments[j] && segments[j..][1..] == segments[j + 1..];
    var later := Frames(segments[j + 1..], eof);
    assert written + (segments[j][1..] + later.written) == (written + segments[j][1..]) + later.written;
  }

  /** `receiveFile(bos, ins)` as written: one reused 10001-byte buffer, a
      first read, then write-and-read until byte 0 of the buffer is 1, and
      a last write. A read at the end of the stream gives -1 and leaves the
      buffer as it was, so byte 0 is still not 1: the loop goes round once
      more and its write of -2 bytes throws, which is where the model stops. */
  method ReceiveFile(segments: seq<seq<byte>>, eof: bool) returns (r: Reception)
    requires WellFormedSegments(segments)
    ensures r == Frames(segments, eof)
  {
    var contents := new byte[BufferSize](_ => 0);
    if |segments| == 0 {
      // read gives -1 on an empty buffer, and write(contents, 1, -2) throws
      assert contents[0] != 1;
      return Reception([], if eof then Thrown(IndexOutOfRange) else Blocked, []);
    }
    var curr := ReadInto(contents, segments[0]);
    var next := 1;
    var written: seq<byte> := [];
    assert segments[0..] == segments;
    while contents[0] != 1
      invariant 0 < next <= |segments| && 1 <= curr <= contents.Length
      invariant contents[..curr] == segments[next - 1]
      invariant Frames(segments, eof) == After(written, Frames(segments[next - 1..], eof))
      decreases |segments| - next
    {
      assert contents[1..curr] == segments[next - 1][1..];
      FramesAt(segments, next - 1, eof, written);
      written := written + contents[1..curr];
      if next == |segments| {
        // read gives -1 (or blocks); byte 0 is still not 1
        assert segments[next..] == [];
        return Reception(written, if eof then Thrown(IndexOutOfRange) else Blocked, []);
      }
      curr := ReadInto(contents, segments[next]);
      next := next + 1;
    }
    assert contents[1..curr] == segments[next - 1][1..];
    FramesAt(segments, next - 1, eof, written);
    r := Reception(written + contents[1..curr], Done(()), segments[next..]);
  }

  // ---------------------------------------------------------------------
  // requestFile and clientProcess

  /** The result of one `requestFile`: the lines it printed, how it ended,
      what it left unread, and whether the socket is still open. */
  datatype Round = Round(sent: seq<string>, outcome: Outcome<string>,
                         lines: seq<string>, segments: seq<seq<byte>>, open: bool)

  /** `requestFile` with `fileId` as the number typed at the console. On a
      closed socket it throws at once. It reads READY and SIZES and, unless
      both tags match, prints ERROR, closes the socket and answers ERROR. It
      then checks the selected name, prints `SEND <fileId>`, takes the
      expected digest from the second field of the next line, decodes the
      file, and prints, and answers, OK when the digests are equal and ERROR
      otherwise, closing the socket. */
  function RequestFile(open: bool, lines: seq<string>, segments: seq<seq<byte>>, eof: bool,
                       fileId: int, digest: seq<byte> -> string): (r: Round)
    requires WellFormedSegments(segments)
    ensures !open ==> r.outcome == Thrown(SocketClosed) && r.sent == []
    ensures WellFormedSegments(r.segments)
    ensures r.outcome.Done? ==> !r.open && (r.outcome.value == "OK" || r.outcome.value == "ERROR")
    ensures r.outcome.Done? ==> |r.sent| > 0 && r.sent[|r.sent| - 1] == r.outcome.value
    ensures r.outcome.Done? ==>
      r.sent == [r.outcome.value] || r.sent == ["SEND " + Decimal(fileId), r.outcome.value]
    ensures (open && |lines| >= 2 && (Split(lines[0], ' ')[0] != "READY" || Split(lines[1], ' ')[0] != "SIZES"))
      ==> r == Round(["ERROR"], Done("ERROR"), lines[2..], segments, false)
    ensures (|r.sent| >= 1 && r.sent[0] == "SEND " + Decimal(fileId)) <==>
      && open && |lines| >= 2
      && Split(lines[0], ' ')[0] == "READY" && Split(lines[1], ' ')[0] == "SIZES"
      && |Split(lines[0], ' ')| >= 2 && |Split(lines[1], ' ')| >= 2
      && |Split(Split(lines[1], ' ')[1], ';')| >= |Split(Split(lines[0], ' ')[1], ';')|
      && 1 <= fileId <= |Split(Split(lines[0], ' ')[1], ';')|
  {
    if !open then Round([], Thrown(SocketClosed), lines, segments, open)
    else if |lines| < 2 then Round([], if eof then Thrown(NullLine) else Blocked, [], segments, open)
    else
      var serverReadyMsg := Split(lines[0], ' ');
      var serverSizesMsg := Split(lines[1], ' ');
      if serverReadyMsg[0] != "READY" || serverSizesMsg[0] != "SIZES" then
        Round(["ERROR"], Done("ERROR"), lines[2..], segments, false)
      else if |serverReadyMsg| < 2 || |serverSizesMsg| < 2 then
        Round([], Thrown(MissingField), lines[2..], segments, open)
      else
        var fns := Split(serverReadyMsg[1], ';');
        var fss := Split(serverSizesMsg[1], ';');
        // listing the catalog reads fss[i] for every name; the destination is fns[fileId - 1]
        if |fss| < |fns| || fileId < 1 || fileId > |fns| then
          Round([], Thrown(IndexOutOfRange), lines[2..], segments, open)
        else
          var request := ["SEND " + Decimal(fileId)];
          if |lines| < 3 then Round(request, if eof then Thrown(NullLine) else Blocked, [], segments, open)
          else
            var hashMsg := Split(lines[2], ' ');
            if |hashMsg| < 2 then Round(request, Thrown(MissingField), lines[3..], segments, open)
            else
              var hash := hashMsg[1];
              var file := Frames(segments, eof);
              if !file.outcome.Done? then Round(request, Propagate(file.outcome), lines[3..], file.rest, open)
              else if digest(file.written) == hash then Round(request + ["OK"], Done("OK"), lines[3..], file.rest, false)
              else Round(request + ["ERROR"], Done("ERROR"), lines[3..], file.rest, false)
  }

  /** Once the tags, the catalog and the digest line are in order and the
      file has been decoded, the answer is OK exactly when the digest of the
      decoded bytes equals the second field of the digest line. */
  lemma VerdictComparesDigests(lines: seq<string>, segments: seq<seq<byte>>, eof: bool,
                               fileId: int, digest: seq<byte> -> string)
    requires WellFormedSegments(segments) && |lines| >= 3
    requires Split(lines[0], ' ')[0] == "READY" && Split(lines[1], ' ')[0] == "SIZES"
    requires |Split(lines[0], ' ')| >= 2 && |Split(lines[1], ' ')| >= 2 && |Split(lines[2], ' ')| >= 2
    requires |Split(Split(lines[1], ' ')[1], ';')| >= |Split(Split(lines[0], ' ')[1], ';')| >= fileId >= 1
    requires Frames(segments, eof).outcome.Done?
    ensures RequestFile(true, lines, segments, eof, fileId, digest).outcome.Done?
    ensures RequestFile(true, lines, segments, eof, fileId, digest).outcome.value == "OK"
        <==> digest(Frames(segments, eof).written) == Split(lines[2], ' ')[1]
    ensures RequestFile(true, lines, segments, eof, fileId, digest).sent
         == ["SEND " + Decimal(fileId), RequestFile(true, lines, segments, eof, fileId, digest).outcome.value]
  {
  }

  /** `clientProcess` as written: request once, and again while the answer
      is ERROR. Every answered request closes the socket, so a repeat throws
      at once: a session whose first request answers ERROR ends with that
      exception, and otherwise it is the first request. */
  method ClientProcess(lines: seq<string>, segments: seq<seq<byte>>, eof: bool,
                       select: nat -> int, digest: seq<byte> -> string) returns (r: Round)
    requires WellFormedSegments(segments)
    ensures var first := RequestFile(true, lines, segments, eof, select(0), digest);
      r == if first.outcome == Done("ERROR")
           then first.(outcome := Thrown(SocketClosed))
           else first
  {
    var attempt := 0;
    r := RequestFile(true, lines, segments, eof, select(attempt), digest);
    while r.outcome == Done("ERROR")
      invariant r.outcome == Done("ERROR") ==> !r.open
      invariant attempt == 0 || r.outcome == Thrown(SocketClosed)
      invariant attempt > 0 ==> RequestFile(true, lines, segments, eof, select(0), digest).outcome == Done("ERROR")
      invariant WellFormedSegments(r.segments)
      invariant var first := RequestFile(true, lines, segments, eof, select(0), digest);
        r == if attempt == 0 then first else first.(outcome := Thrown(SocketClosed))
      decreases if r.outcome == Done("ERROR") then 1 else 0
    {
      attempt := attempt + 1;
      var again := RequestFile(r.open, r.lines, r.segments, eof, select(attempt), digest);
      assert r.sent + again.sent == r.sent;
      r := r.(outcome := again.outcome, sent := r.sent + again.sent);
    }
  }
}
