/** The provider side of the TCP variant, `TCP.Server.Server`: it advertises
    the file names, reads a request by name, loops over requests, and
    streams the chosen file in 10000-byte writes.

    The reader is a finite sequence of incoming lines; `eof` says whether the
    stream ends after them (`readLine` then gives null) or more may still
    come (the source blocks). The data directory is the list of file names
    `files` it lists. */
module TcpProvider {
  import opened Wire
  import opened Chunking

  /** The size of each write of `send`. */
  const ChunkSize: nat := 10000

  /** The advertised names: the last `/` segment of each listed file. */
  function Names(files: seq<string>): (names: seq<string>)
    ensures |names| == |files|
    ensures forall i :: 0 <= i < |files| ==> names[i] == LastPathSegment(files[i])
  {
    seq(|files|, i requires 0 <= i < |files| => LastPathSegment(files[i]))
  }

  /** Each advertised name is the end of the listed file's name after its
      last `/` (all of it when there is none), and holds no `/`. */
  lemma NamesAreBaseNames(files: seq<string>)
    ensures forall i :: 0 <= i < |files| ==>
      var name, path := Names(files)[i], files[i];
      && '/' !in name && |name| <= |path| && path[|path| - |name|..] == name
      && (|name| < |path| ==> path[|path| - |name| - 1] == '/')
  {
    forall i | 0 <= i < |files|
      ensures var name, path := Names(files)[i], files[i];
        && |name| <= |path| && path[|path| - |name|..] == name
        && (|name| < |path| ==> path[|path| - |name| - 1] == '/')
    {
      LastPathSegmentIsSuffix(files[i]);
    }
  }

  /** The READY line. */
  function ReadyLine(files: seq<string>): string
  {
    "READY " + Join(Names(files), ';')
  }

  /** A request `prepareToSend` accepts: tagged SEND, with a second field
      that is one of the listed names. */
  predicate Requests(files: seq<string>, line: string)
  {
    var ans := Split(line, ' ');
    ans[0] == "SEND" && |ans| >= 2 && ans[1] in Names(files)
  }

  /** `prepareToSend`: print READY with the names joined by `;`, read one
      line, and give back the requested name when the request is tagged SEND
      and names a listed file; otherwise print ERROR and give back "ERROR".
      A SEND line with no second field throws, and so does the end of the
      stream (null has no `split`). */
  function PrepareToSend(files: seq<string>, lines: seq<string>, eof: bool): (r: Exchange<string>)
    ensures |r.sent| >= 1 && r.sent[0] == ReadyLine(files)
    ensures r.outcome.Done? ==> |lines| > 0 && r.rest == lines[1..]
    ensures r.outcome.Done? ==> (Requests(files, lines[0]) <==> r.sent == [ReadyLine(files)])
    ensures r.outcome.Done? && Requests(files, lines[0]) ==> r.outcome.value == Split(lines[0], ' ')[1]
    ensures r.outcome.Done? && !Requests(files, lines[0]) ==>
      r.sent == [ReadyLine(files), "ERROR"] && r.outcome.value == "ERROR"
    ensures r.outcome.Thrown? <==> (|lines| == 0 && eof) || (|lines| > 0 && Split(lines[0], ' ') == ["SEND"])
  {
    var ready := [ReadyLine(files)];
    if |lines| == 0 then Exchange(ready, if eof then Thrown(NullLine) else Blocked, [])
    else
      var ans := Split(lines[0], ' ');
      if ans[0] != "SEND" then Exchange(ready + ["ERROR"], Done("ERROR"), lines[1..])
      else if |ans| < 2 then Exchange(ready, Thrown(MissingField), lines[1..])
      else if ans[1] in Names(files) then Exchange(ready, Done(ans[1]), lines[1..])
      else Exchange(ready + ["ERROR"], Done("ERROR"), lines[1..])
  }

  /** The selection loop of `run`: call `prepareToSend` again as long as it
      gives anything but "ERROR", and stop at the first "ERROR". */
  function Selection(files: seq<string>, lines: seq<string>, eof: bool): (r: Exchange<string>)
    ensures |r.rest| <= |lines|
    ensures |r.sent| >= 1 && r.sent[0] == ReadyLine(files)
    decreases |lines|
  {
    var attempt := PrepareToSend(files, lines, eof);
    if attempt.outcome.Done? && attempt.outcome.value != "ERROR" then
      var later := Selection(files, attempt.rest, eof);
      Exchange(attempt.sent + later.sent, later.outcome, later.rest)
    else attempt
  }

  /** The loop of `run` as written: it starts with one `prepareToSend` and
      repeats it while the result differs from "ERROR". */
  method SelectFile(files: seq<string>, lines: seq<string>, eof: bool) returns (r: Exchange<string>)
    ensures r == Selection(files, lines, eof)
  {
    SelectionAt(files, lines, eof, []);
    assert [] + Selection(files, lines, eof).sent == Selection(files, lines, eof).sent;
    var first := PrepareToSend(files, lines, eof);
    var sent := first.sent;
    if !first.outcome.Done? {
      return first;
    }
    var fileName := first.outcome.value;
    var rest := first.rest;
    while fileName != "ERROR"
      invariant |rest| < |lines|
      invariant Selection(files, lines, eof) == SelectionAfter(sent, fileName, files, rest, eof)
      decreases |rest|
    {
      SelectionAt(files, rest, eof, sent);
      var attempt := PrepareToSend(files, rest, eof);
      if !attempt.outcome.Done? {
        return Exchange(sent + attempt.sent, attempt.outcome, attempt.rest);
      }
      sent := sent + attempt.sent;
      fileName := attempt.outcome.value;
      rest := attempt.rest;
    }
    r := Exchange(sent, Done(fileName), rest);
  }

  /** The rest of the selection once `sent` is out and the last request gave
      `fileName`. */
  function SelectionAfter(sent: seq<string>, fileName: string, files: seq<string>, rest: seq<string>, eof: bool): Exchange<string>
  {
    if fileName == "ERROR" then Exchange(sent, Done(fileName), rest)
    else
      var later := Selection(files, rest, eof);
      Exchange(sent + later.sent, later.outcome, later.rest)
  }

  /** The selection with `sent` already out (a name other than ERROR means
      the loop goes on), one request unfolded. */
  lemma SelectionAt(files: seq<string>, lines: seq<string>, eof: bool, sent: seq<string>)
    ensures SelectionAfter(sent, "", files, lines, eof)
         == var attempt := PrepareToSend(files, lines, eof);
            if attempt.outcome.Done? then SelectionAfter(sent + attempt.sent, attempt.outcome.value, files, attempt.rest, eof)
            else Exchange(sent + attempt.sent, attempt.outcome, attempt.rest)
  {
    var attempt := PrepareToSend(files, lines, eof);
    if attempt.outcome.Done? && attempt.outcome.value != "ERROR" {
      var later := Selection(files, attempt.rest, eof);
      assert sent + (attempt.sent + later.sent) == (sent + attempt.sent) + later.sent;
    }
  }

  /** A request after which the selection loop goes on: accepted, and
      naming a file other than one called "ERROR". */
  predicate Continues(files: seq<string>, line: string)
  {
    Requests(files, line) && Split(line, ' ')[1] != "ERROR"
  }

  /** `prepareToSend` gives a name other than ERROR exactly for a request
      after which the loop goes on. */
  lemma PrepareToSendContinues(files: seq<string>, lines: seq<string>, eof: bool)
    ensures var r := PrepareToSend(files, lines, eof);
      r.outcome.Done? ==> (r.outcome.value != "ERROR" <==> Continues(files, lines[0]))
  {
  }

  /** The guard is inverted: when the selection loop ends normally it ends
      with "ERROR", which is the name `run` goes on to open and send. Every
      request it consumed but the last was accepted, and the last was not
      (or named a file called "ERROR"). */
  lemma {:induction false} SelectionEndsWithError(files: seq<string>, lines: seq<string>, eof: bool)
    ensures Selection(files, lines, eof).outcome.Done? ==>
      && Selection(files, lines, eof).outcome.value == "ERROR"
      && var k := |lines| - |Selection(files, lines, eof).rest|;
         && 0 < k && Selection(files, lines, eof).rest == lines[k..]
         && (forall i :: 0 <= i < k - 1 ==> Continues(files, lines[i]))
         && !Continues(files, lines[k - 1])
    decreases |lines|
  {
    var attempt := PrepareToSend(files, lines, eof);
    PrepareToSendContinues(files, lines, eof);
    if attempt.outcome.Done? && attempt.outcome.value != "ERROR" {
      SelectionEndsWithError(files, lines[1..], eof);
      var r := Selection(files, lines, eof);
      if r.outcome.Done? {
        var k := |lines| - |r.rest|;
        assert lines[1..][k - 1..] == lines[k..];
        forall i | 0 <= i < k - 1 ensures Continues(files, lines[i]) {
          if i > 0 { assert lines[i] == lines[1..][i - 1]; }
        }
        assert lines[k - 1] == lines[1..][k - 2];
      }
    }
  }

  /** A first request that is rejected ends the loop at once, with one READY
      and one ERROR sent. */
  lemma RejectedFirstRequestStops(files: seq<string>, line: string, more: seq<string>, eof: bool)
    requires Split(line, ' ')[0] != "SEND" || (|Split(line, ' ')| >= 2 && Split(line, ' ')[1] !in Names(files))
    ensures Selection(files, [line] + more, eof) == Exchange([ReadyLine(files), "ERROR"], Done("ERROR"), more)
  {
    assert ([line] + more)[0] == line && ([line] + more)[1..] == more;
  }

  /** A first request that is accepted does not start the transfer: the loop
      advertises again. */
  lemma AcceptedFirstRequestReadvertises(files: seq<string>, line: string, more: seq<string>, eof: bool)
    requires Requests(files, line) && Split(line, ' ')[1] != "ERROR"
    ensures |Selection(files, [line] + more, eof).sent| >= 2
    ensures Selection(files, [line] + more, eof).sent[..2] == [ReadyLine(files), ReadyLine(files)]
  {
    assert ([line] + more)[0] == line && ([line] + more)[1..] == more;
  }

  // ---------------------------------------------------------------------
  // send

  /** `send`: write the file in pieces of 10000 bytes, the last holding the
      remainder, until `curr` reaches the file length. The pieces are the
      file, none is empty or longer than 10000 bytes, all but the last are
      exactly 10000, and there are ceil(length / 10000) of them: none for an
      empty file. After each piece it prints `curr * 100 / length`: one
      report per piece, never decreasing, and 100 only after the last. */
  method Send(contents: seq<byte>) returns (written: seq<seq<byte>>, progress: seq<nat>)
    ensures written == Chunks(contents, ChunkSize)
    ensures Flatten(written) == contents
    ensures forall i :: 0 <= i < |written| ==> 0 < |written[i]| <= ChunkSize
    ensures forall i :: 0 <= i < |written| - 1 ==> |written[i]| == ChunkSize
    ensures (|written| - 1) * ChunkSize < |contents| <= |written| * ChunkSize
    ensures |progress| == |written|
    ensures forall i, j :: 0 <= i <= j < |progress| ==> progress[i] <= progress[j]
    ensures forall i :: 0 <= i < |progress| - 1 ==> progress[i] < 100
    ensures |progress| > 0 ==> progress[|progress| - 1] == 100
  {
    var fileLength := |contents|;
    var curr := 0;
    written, progress := [], [];
    while curr != fileLength
      invariant 0 <= curr <= fileLength
      invariant written + Chunks(contents[curr..], ChunkSize) == Chunks(contents, ChunkSize)
      invariant |progress| == |written|
      invariant |progress| > 0 ==> 0 < fileLength && progress[|progress| - 1] == Percent(curr, fileLength)
      invariant Reports(progress)
      decreases fileLength - curr
    {
      var start := curr;
      var size := ChunkSize;
      if fileLength - curr >= size {
        curr := curr + size;
      } else {
        size := ToInt32(fileLength - curr);
        curr := fileLength;
      }
      var fileContent := contents[start..start + size];
      ChunkAt(contents, ChunkSize, start);
      assert start + size == start + Min(ChunkSize, fileLength - start) == curr;
      assert (written + [fileContent]) + Chunks(contents[curr..], ChunkSize)
          == written + Chunks(contents[start..], ChunkSize);
      written := written + [fileContent];
      PercentMonotone(start, curr, fileLength);
      ReportsAppend(progress, Percent(curr, fileLength));
      progress := progress + [Percent(curr, fileLength)];
    }
    assert contents[curr..] == [];
    ChunksFlatten(contents, ChunkSize);
    ChunksShape(contents, ChunkSize);
    ChunksCount(contents, ChunkSize);
  }
}
