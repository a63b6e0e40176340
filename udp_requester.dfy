/** The requester side of the UDP variant, `UDP.Client.Client`: read the
    catalog, send the selection, read the packet count and the digest,
    receive the file and compare digests, starting over on ERROR.

    The socket is a finite sequence of incoming datagrams and a trace of sent
    ones; running out of datagrams is `Blocked`. The digest is the function
    parameter `digest`, the console selector the function `select` from the
    attempt number to the id typed. */
module UdpRequester {
  import opened Wire

  /** `bufferStandardSize`. */
  const PacketSize: nat := 548

  /** A control message as the requester reads it: the datagram, cut to the
      548-byte buffer, as text. */
  function ControlText(d: seq<byte>): (s: string)
    ensures |s| == Min(|d|, PacketSize)
    ensures forall i :: 0 <= i < |s| ==> s[i] as int == d[i] as int
  {
    Chars(d[..Min(|d|, PacketSize)])
  }

  /** The space-separated fields of a control message. */
  function Fields(d: seq<byte>): seq<string>
  {
    Split(ControlText(d), ' ')
  }

  // ---------------------------------------------------------------------
  // receiveFile

  /** One pass of `receiveFile`'s bookkeeping from `receivedBytes`: a full
      548-byte buffer while at least that much is expected, else the rest
      (narrowed with `toInt`), after which the count stands at `fileSize`.
      Within the file, the buffer is min(548, what is left), the count grows
      by exactly that and never passes `fileSize`. */
  function Pass(fileSize: int, receivedBytes: int): (r: (int, int))
    ensures 0 <= receivedBytes <= fileSize ==>
      && r.0 == Min(PacketSize, fileSize - receivedBytes)
      && r.1 == receivedBytes + r.0
      && receivedBytes <= r.1 <= fileSize
    ensures receivedBytes == fileSize ==> r == (0, fileSize)
  {
    if fileSize - receivedBytes >= PacketSize then (PacketSize, receivedBytes + PacketSize)
    else (ToInt32(fileSize - receivedBytes), fileSize)
  }

  /** `receiveFile`'s loop from a given `receivedBytes`. Its guard compares
      `currPack`, which stays 0, with `numPacks`: when `numPacks` is negative
      nothing happens, otherwise every pass reads one datagram into a fresh
      buffer of the pass's size and writes that whole buffer, and only a
      negative buffer size (an exception) or the end of the input stops it. */
  function Receive(numPacks: int, fileSize: int, receivedBytes: int, inbox: seq<seq<byte>>): (r: Reception)
    ensures |r.rest| <= |inbox|
    decreases |inbox|
  {
    if 0 > numPacks then Reception([], Done(()), inbox)
    else
      var (buff, next) := Pass(fileSize, receivedBytes);
      if buff < 0 then Reception([], Thrown(NegativeArraySize), inbox)
      else if |inbox| == 0 then Reception([], Blocked, [])
      else
        var later := Receive(numPacks, fileSize, next, inbox[1..]);
        Reception(Fit(inbox[0], buff) + later.written, later.outcome, later.rest)
  }

  /** The loop reads datagrams in order: what it leaves unread is a suffix. */
  lemma {:induction false} ReceiveLeavesSuffix(numPacks: int, fileSize: int, receivedBytes: int, inbox: seq<seq<byte>>)
    ensures Receive(numPacks, fileSize, receivedBytes, inbox).rest
         == inbox[|inbox| - |Receive(numPacks, fileSize, receivedBytes, inbox).rest|..]
    decreases |inbox|
  {
    if 0 <= numPacks && 0 <= Pass(fileSize, receivedBytes).0 && |inbox| > 0 {
      ReceiveLeavesSuffix(numPacks, fileSize, Pass(fileSize, receivedBytes).1, inbox[1..]);
      var r := Receive(numPacks, fileSize, Pass(fileSize, receivedBytes).1, inbox[1..]);
      assert inbox[1..][|inbox[1..]| - |r.rest|..] == inbox[|inbox| - |r.rest|..];
    }
  }

  /** One pass of the loop over the datagrams from `read` on, unfolded, with
      `written` already out before it. */
  lemma ReceiveAt(numPacks: int, fileSize: int, receivedBytes: int, inbox: seq<seq<byte>>,
                  read: nat, written: seq<byte>)
    requires 0 <= numPacks && read <= |inbox|
    ensures After(written, Receive(numPacks, fileSize, receivedBytes, inbox[read..]))
         == var (buff, next) := Pass(fileSize, receivedBytes);
            if buff < 0 then Reception(written, Thrown(NegativeArraySize), inbox[read..])
            else if read == |inbox| then Reception(written, Blocked, [])
            else After(written + Fit(inbox[read], buff), Receive(numPacks, fileSize, next, inbox[read + 1..]))
  {
    assert written + [] == written;
    if read < |inbox| && Pass(fileSize, receivedBytes).0 >= 0 {
      assert inbox[read..][0] == inbox[read] && inbox[read..][1..] == inbox[read + 1..];
      var (buff, next) := Pass(fileSize, receivedBytes);
      var later := Receive(numPacks, fileSize, next, inbox[read + 1..]);
      assert written + (Fit(inbox[read], buff) + later.written) == (written + Fit(inbox[read], buff)) + later.written;
    }
  }

  /** `receiveFile(bos, numPacks, fileSize)`. `currPack` is never advanced,
      as in the source; the loop here ends only because the input is finite. */
  method ReceiveFile(numPacks: int, fileSize: int, inbox: seq<seq<byte>>) returns (r: Reception)
    ensures r == Receive(numPacks, fileSize, 0, inbox)
  {
    var currPack := 0;
    var receivedBytes := 0;
    var written: seq<byte> := [];
    var read := 0;
    assert inbox[0..] == inbox;
    while currPack <= numPacks
      invariant 0 <= read <= |inbox|
      invariant currPack == 0
      invariant Receive(numPacks, fileSize, 0, inbox)
             == After(written, Receive(numPacks, fileSize, receivedBytes, inbox[read..]))
      decreases |inbox| - read
    {
      ReceiveAt(numPacks, fileSize, receivedBytes, inbox, read, written);
      ghost var before := receivedBytes;
      var buff := PacketSize;
      if fileSize - receivedBytes >= buff {
        receivedBytes := receivedBytes + buff;
      } else {
        buff := ToInt32(fileSize - receivedBytes);
        receivedBytes := fileSize;
      }
      assert (buff, receivedBytes) == Pass(fileSize, before);
      if buff < 0 {
        return Reception(written, Thrown(NegativeArraySize), inbox[read..]);
      }
      if read == |inbox| {
        return Reception(written, Blocked, []);
      }
      written := written + Fit(inbox[read], buff);
      read := read + 1;
    }
    assert written + [] == written;
    r := Reception(written, Done(()), inbox[read..]);
  }

  /** With a non-negative packet count the loop never finishes: it ends only
      by running out of datagrams or by an exception. With a negative count
      it writes nothing. */
  lemma {:induction false} ReceiveNeverCompletes(numPacks: int, fileSize: int, receivedBytes: int, inbox: seq<seq<byte>>)
    ensures Receive(numPacks, fileSize, receivedBytes, inbox).outcome.Done? <==> numPacks < 0
    ensures numPacks < 0 ==> Receive(numPacks, fileSize, receivedBytes, inbox).written == []
    decreases |inbox|
  {
    if numPacks >= 0 && |inbox| > 0 && Pass(fileSize, receivedBytes).0 >= 0 {
      ReceiveNeverCompletes(numPacks, fileSize, Pass(fileSize, receivedBytes).1, inbox[1..]);
    }
  }

  /** For a file of known, non-negative size, the datagrams read so far fill
      exactly min(receivedBytes + 548 k, fileSize) - receivedBytes bytes: the
      file is written up to its size and every pass after that writes nothing. */
  lemma {:induction false} ReceiveWritesUpToSize(numPacks: int, fileSize: int, receivedBytes: int, inbox: seq<seq<byte>>)
    requires 0 <= numPacks && 0 <= receivedBytes <= fileSize
    ensures Receive(numPacks, fileSize, receivedBytes, inbox).outcome == Blocked
    ensures Receive(numPacks, fileSize, receivedBytes, inbox).rest == []
    ensures |Receive(numPacks, fileSize, receivedBytes, inbox).written|
         == Min(receivedBytes + PacketSize * |inbox|, fileSize) - receivedBytes
    decreases |inbox|
  {
    if |inbox| > 0 {
      var next := Pass(fileSize, receivedBytes).1;
      ReceiveWritesUpToSize(numPacks, fileSize, next, inbox[1..]);
      assert PacketSize * |inbox| == PacketSize + PacketSize * |inbox[1..]|;
    }
  }

  /** Each datagram is stored in the pass's buffer: the datagram's first bytes,
      zero-filled up to the buffer size. */
  lemma {:induction false} ReceiveStoresDatagrams(numPacks: int, fileSize: int, receivedBytes: int, inbox: seq<seq<byte>>)
    requires 0 <= numPacks && 0 <= receivedBytes <= fileSize && |inbox| > 0
    ensures var buff := Min(PacketSize, fileSize - receivedBytes);
      Receive(numPacks, fileSize, receivedBytes, inbox).written[..buff] == Fit(inbox[0], buff)
  {
  }

  // ---------------------------------------------------------------------
  // requestFile and communicateWithServer

  /** `requestFile` with `fileId` as the selector's answer. It reads READY and
      SIZES and answers ERROR, having sent nothing, unless both tags match;
      it sends `SEND <fileId>`; it answers ERROR unless the next message is
      tagged NUM; it takes the expected size and the file name from the
      selected catalog fields, the digest from the first field of the next
      message, receives the file and answers OK exactly when the two digests
      are equal. */
  function RequestFile(inbox: seq<seq<byte>>, fileId: int, digest: seq<byte> -> string): (r: Step<string>)
    ensures |r.rest| <= |inbox| && r.rest == inbox[|inbox| - |r.rest|..]
    ensures r.sent == [] || r.sent == [Text("SEND " + Decimal(fileId))]
    ensures r.outcome.Done? ==> r.outcome.value == "OK" || r.outcome.value == "ERROR"
    ensures r.outcome.Done? ==> |r.rest| <= |inbox| - 2
    ensures |inbox| >= 2 && (Fields(inbox[0])[0] != "READY" || Fields(inbox[1])[0] != "SIZES") ==>
      r == Step([], Done("ERROR"), inbox[2..])
    ensures r.sent == [Text("SEND " + Decimal(fileId))] <==>
      && |inbox| >= 2 && Fields(inbox[0])[0] == "READY" && Fields(inbox[1])[0] == "SIZES"
      && |Fields(inbox[0])| >= 2 && |Fields(inbox[1])| >= 2
      && |Split(Fields(inbox[1])[1], ';')| >= |Split(Fields(inbox[0])[1], ';')|
  {
    if |inbox| < 2 then Step([], Blocked, [])
    else
      var serverReadyMsg := Fields(inbox[0]);
      var serverSizesMsg := Fields(inbox[1]);
      if serverReadyMsg[0] != "READY" || serverSizesMsg[0] != "SIZES" then Step([], Done("ERROR"), inbox[2..])
      else if |serverReadyMsg| < 2 || |serverSizesMsg| < 2 then Step([], Thrown(MissingField), inbox[2..])
      else
        var fileNames := Split(serverReadyMsg[1], ';');
        var fileSizes := Split(serverSizesMsg[1], ';');
        // listing the catalog reads fileSizes[i] for every name
        if |fileSizes| < |fileNames| then Step([], Thrown(IndexOutOfRange), inbox[2..])
        else
          var request := [Text("SEND " + Decimal(fileId))];
          if |inbox| < 3 then Step(request, Blocked, [])
          else
            var numPacksMsg := Fields(inbox[2]);
            if numPacksMsg[0] != "NUM" then Step(request, Done("ERROR"), inbox[3..])
            else if |numPacksMsg| < 2 then Step(request, Thrown(MissingField), inbox[3..])
            else
              match ToLong(numPacksMsg[1])
              case None => Step(request, Thrown(NotANumber), inbox[3..])
              case Some(numPacks) =>
                if fileId < 1 || fileId > |fileSizes| then Step(request, Thrown(IndexOutOfRange), inbox[3..])
                else
                  match ToLong(fileSizes[fileId - 1])
                  case None => Step(request, Thrown(NotANumber), inbox[3..])
                  case Some(fileSize) =>
                    // the destination file is named fileNames[fileId - 1]
                    if fileId > |fileNames| then Step(request, Thrown(IndexOutOfRange), inbox[3..])
                    else if |inbox| < 4 then Step(request, Blocked, [])
                    else
                      var receivedHash := Fields(inbox[3])[0];
                      var reception := Receive(numPacks, fileSize, 0, inbox[4..]);
                      ReceiveLeavesSuffix(numPacks, fileSize, 0, inbox[4..]);
                      assert inbox[4..][|inbox[4..]| - |reception.rest|..] == inbox[|inbox| - |reception.rest|..];
                      if !reception.outcome.Done? then Step(request, Propagate(reception.outcome), reception.rest)
                      else if receivedHash == digest(reception.written) then Step(request, Done("OK"), reception.rest)
                      else Step(request, Done("ERROR"), reception.rest)
  }

  /** Because the receive loop never finishes on a non-negative count, a
      round answers OK only when the count announced is negative, nothing
      was written, and the first field of the digest message is the digest
      of no bytes at all. */
  lemma RequestFileOk(inbox: seq<seq<byte>>, fileId: int, digest: seq<byte> -> string)
    requires RequestFile(inbox, fileId, digest).outcome == Done("OK")
    ensures |inbox| >= 4 && |Fields(inbox[2])| >= 2
    ensures exists numPacks :: numPacks < 0 && ToLong(Fields(inbox[2])[1]) == Some(numPacks)
    ensures Fields(inbox[3])[0] == digest([])
  {
    var numPacksMsg := Fields(inbox[2]);
    var numPacks := ToLong(numPacksMsg[1]).value;
    var fileSize := ToLong(Split(Fields(inbox[1])[1], ';')[fileId - 1]).value;
    ReceiveNeverCompletes(numPacks, fileSize, 0, inbox[4..]);
  }

  /** When the transfer loop does finish, the verdict is OK exactly when the
      digest field read equals the digest of the bytes written. */
  lemma VerdictComparesDigests(inbox: seq<seq<byte>>, fileId: int, digest: seq<byte> -> string, numPacks: int, fileSize: int)
    requires |inbox| >= 4
    requires Fields(inbox[0])[0] == "READY" && Fields(inbox[1])[0] == "SIZES" && Fields(inbox[2])[0] == "NUM"
    requires |Fields(inbox[0])| >= 2 && |Fields(inbox[1])| >= 2 && |Fields(inbox[2])| >= 2
    requires |Split(Fields(inbox[1])[1], ';')| >= |Split(Fields(inbox[0])[1], ';')| >= fileId >= 1
    requires ToLong(Fields(inbox[2])[1]) == Some(numPacks)
    requires ToLong(Split(Fields(inbox[1])[1], ';')[fileId - 1]) == Some(fileSize)
    requires Receive(numPacks, fileSize, 0, inbox[4..]).outcome.Done?
    ensures RequestFile(inbox, fileId, digest).outcome.Done?
    ensures RequestFile(inbox, fileId, digest).outcome.value == "OK"
        <==> Fields(inbox[3])[0] == digest(Receive(numPacks, fileSize, 0, inbox[4..]).written)
    ensures RequestFile(inbox, fileId, digest).sent == [Text("SEND " + Decimal(fileId))]
  {
  }

  /** On the path a real transfer takes (tags in order, the selected size
      parsed, the receive loop not finished), the round has sent only its
      request, ends as the receive loop does, and leaves what that loop did
      not read: the (fileId - 1)-th size of the catalog is the size that
      drives the loop. */
  lemma RequestFileReceives(inbox: seq<seq<byte>>, fileId: int, digest: seq<byte> -> string, numPacks: int, fileSize: int)
    requires |inbox| >= 4
    requires Fields(inbox[0])[0] == "READY" && Fields(inbox[1])[0] == "SIZES" && Fields(inbox[2])[0] == "NUM"
    requires |Fields(inbox[0])| >= 2 && |Fields(inbox[1])| >= 2 && |Fields(inbox[2])| >= 2
    requires |Split(Fields(inbox[1])[1], ';')| >= |Split(Fields(inbox[0])[1], ';')| >= fileId >= 1
    requires ToLong(Fields(inbox[2])[1]) == Some(numPacks)
    requires ToLong(Split(Fields(inbox[1])[1], ';')[fileId - 1]) == Some(fileSize)
    requires !Receive(numPacks, fileSize, 0, inbox[4..]).outcome.Done?
    ensures RequestFile(inbox, fileId, digest)
         == Step([Text("SEND " + Decimal(fileId))],
                 Propagate(Receive(numPacks, fileSize, 0, inbox[4..]).outcome),
                 Receive(numPacks, fileSize, 0, inbox[4..]).rest)
  {
  }

  /** With a non-negative count and size announced, the round never
      answers: it waits for datagrams for ever. */
  lemma TransferNeverAnswers(inbox: seq<seq<byte>>, fileId: int, digest: seq<byte> -> string, numPacks: int, fileSize: int)
    requires |inbox| >= 4
    requires Fields(inbox[0])[0] == "READY" && Fields(inbox[1])[0] == "SIZES" && Fields(inbox[2])[0] == "NUM"
    requires |Fields(inbox[0])| >= 2 && |Fields(inbox[1])| >= 2 && |Fields(inbox[2])| >= 2
    requires |Split(Fields(inbox[1])[1], ';')| >= |Split(Fields(inbox[0])[1], ';')| >= fileId >= 1
    requires ToLong(Fields(inbox[2])[1]) == Some(numPacks)
    requires ToLong(Split(Fields(inbox[1])[1], ';')[fileId - 1]) == Some(fileSize)
    ensures numPacks >= 0 && fileSize >= 0 ==>
      RequestFile(inbox, fileId, digest) == Step([Text("SEND " + Decimal(fileId))], Blocked, [])
  {
    if numPacks >= 0 && fileSize >= 0 {
      ReceiveWritesUpToSize(numPacks, fileSize, 0, inbox[4..]);
      RequestFileReceives(inbox, fileId, digest, numPacks, fileSize);
    }
  }

  /** A round whose third message is not tagged NUM answers ERROR after
      sending only its request. */
  lemma NumTagChecked(inbox: seq<seq<byte>>, fileId: int, digest: seq<byte> -> string)
    requires |inbox| >= 3
    requires Fields(inbox[0])[0] == "READY" && Fields(inbox[1])[0] == "SIZES" && Fields(inbox[2])[0] != "NUM"
    requires |Fields(inbox[0])| >= 2 && |Fields(inbox[1])| >= 2
    requires |Split(Fields(inbox[1])[1], ';')| >= |Split(Fields(inbox[0])[1], ';')|
    ensures RequestFile(inbox, fileId, digest) == Step([Text("SEND " + Decimal(fileId))], Done("ERROR"), inbox[3..])
  {
  }

  /** `communicateWithServer`: repeat `requestFile` while it answers ERROR,
      asking the selector again each time. A session that ends normally
      answers OK, and the requester never sends anything but its requests:
      no acknowledgment and no verdict. */
  function CommunicateWithServer(inbox: seq<seq<byte>>, select: nat -> int, attempt: nat, digest: seq<byte> -> string): (r: Step<string>)
    ensures r.outcome.Done? ==> r.outcome.value == "OK"
    ensures forall i :: 0 <= i < |r.sent| ==> exists k :: attempt <= k && r.sent[i] == Text("SEND " + Decimal(select(k)))
    ensures RequestFile(inbox, select(attempt), digest).outcome != Done("ERROR") ==>
      r == RequestFile(inbox, select(attempt), digest)
    decreases |inbox|
  {
    var round := RequestFile(inbox, select(attempt), digest);
    if round.outcome == Done("ERROR") then
      Prepend(round.sent, CommunicateWithServer(round.rest, select, attempt + 1, digest))
    else
      round
  }
}
