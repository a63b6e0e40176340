/** The provider side of the UDP variant, one `ClientConversation`: it
    advertises the catalog, takes a selection, announces the packet count and
    the digest, streams the file under stop-and-wait and waits for the
    requester's verdict, starting over when that verdict is ERROR.

    The socket is a finite sequence of incoming datagrams (`inbox`) and a
    trace of sent ones; running out of datagrams is `Blocked`. The digest is
    the function parameter `digest`. */
module UdpProvider {
  import opened Wire
  import opened Chunking

  /** `bufferStandardSize`: the receive buffer and the largest packet. */
  const PacketSize: nat := 548

  /** One entry of the data directory: its name and its bytes. */
  datatype StoredFile = StoredFile(name: string, contents: seq<byte>)

  // ---------------------------------------------------------------------
  // Receiving: cleanByteArray and unpackageMessage

  /** The bytes before the first zero byte: the longest zero-free prefix. */
  function ZeroFreePrefix(bs: seq<byte>): (r: seq<byte>)
    ensures |r| <= |bs| && r == bs[..|r|]
    ensures forall i :: 0 <= i < |r| ==> r[i] != 0
    ensures |r| < |bs| ==> bs[|r|] == 0
    decreases |bs|
  {
    if |bs| == 0 || bs[0] == 0 then [] else [bs[0]] + ZeroFreePrefix(bs[1..])
  }

  /** A zero-free prefix that stops at a zero byte or at the end is the one. */
  lemma {:induction false} ZeroFreePrefixUnique(bs: seq<byte>, r: seq<byte>)
    requires |r| <= |bs| && r == bs[..|r|]
    requires forall i :: 0 <= i < |r| ==> r[i] != 0
    requires |r| < |bs| ==> bs[|r|] == 0
    ensures r == ZeroFreePrefix(bs)
    decreases |bs|
  {
    assert |r| > 0 ==> r[0] == bs[0];
    if |r| > 0 {
      ZeroFreePrefixUnique(bs[1..], r[1..]);
      assert r == [bs[0]] + r[1..];
    }
  }

  /** `cleanByteArray`: scan for the first zero byte, then copy what precedes it. */
  method CleanByteArray(bs: array<byte>) returns (newByteArr: array<byte>)
    ensures fresh(newByteArr)
    ensures newByteArr[..] == ZeroFreePrefix(bs[..])
  {
    var firstZero := 0;
    var found := false;
    while firstZero < bs.Length && !found
      invariant 0 <= firstZero <= bs.Length
      invariant forall i :: 0 <= i < firstZero ==> bs[i] != 0
      invariant found ==> firstZero < bs.Length && bs[firstZero] == 0
      decreases bs.Length - firstZero, !found
    {
      if bs[firstZero] == 0 {
        found := true;
      } else {
        firstZero := firstZero + 1;
      }
    }
    newByteArr := new byte[firstZero];
    for i := 0 to firstZero
      invariant forall j :: 0 <= j < i ==> newByteArr[j] == bs[j]
    {
      newByteArr[i] := bs[i];
    }
    ZeroFreePrefixUnique(bs[..], newByteArr[..]);
  }

  /** The text of a datagram as the provider reads it: stored in a fresh
      548-byte buffer, cut at the first zero byte, decoded. */
  function ReceivedText(d: seq<byte>): string
  {
    Chars(ZeroFreePrefix(Fit(d, PacketSize)))
  }

  /** `unpackageMessage(ByteArray(548)).toString(charset)`. */
  method Unpackage(d: seq<byte>) returns (text: string)
    ensures text == ReceivedText(d)
  {
    var buffer := new byte[PacketSize](i => if 0 <= i < |d| then d[i] else 0);
    assert buffer[..] == Fit(d, PacketSize);
    var cleaned := CleanByteArray(buffer);
    text := Chars(cleaned[..]);
  }

  // ---------------------------------------------------------------------
  // The catalog: getAvailableFileNames and getAvailableFileSizes

  /** The advertised names: the last `/` segment of each file name. */
  function Names(files: seq<StoredFile>): (names: seq<string>)
    ensures |names| == |files|
    ensures forall i :: 0 <= i < |files| ==> names[i] == LastPathSegment(files[i].name)
  {
    seq(|files|, i requires 0 <= i < |files| => LastPathSegment(files[i].name))
  }

  /** The advertised sizes: each file's length in decimal. */
  function Sizes(files: seq<StoredFile>): (sizes: seq<string>)
    ensures |sizes| == |files|
    ensures forall i :: 0 <= i < |files| ==> sizes[i] == Decimal(|files[i].contents|)
  {
    seq(|files|, i requires 0 <= i < |files| => Decimal(|files[i].contents|))
  }

  /** Each advertised name is the end of the file's name after its last `/`
      (all of it when there is none), and holds no `/`. */
  lemma NamesAreBaseNames(files: seq<StoredFile>)
    ensures forall i :: 0 <= i < |files| ==>
      var name, path := Names(files)[i], files[i].name;
      && '/' !in name && |name| <= |path| && path[|path| - |name|..] == name
      && (|name| < |path| ==> path[|path| - |name| - 1] == '/')
  {
    forall i | 0 <= i < |files|
      ensures var name, path := Names(files)[i], files[i].name;
        && |name| <= |path| && path[|path| - |name|..] == name
        && (|name| < |path| ==> path[|path| - |name| - 1] == '/')
    {
      LastPathSegmentIsSuffix(files[i].name);
    }
  }

  /** Each advertised size is plain ASCII digits, with neither separator of
      the protocol nor a NUL in it, and parses as a Long back to the file's
      length whenever that length fits in a Long. */
  lemma SizesParse(files: seq<StoredFile>)
    ensures forall i :: 0 <= i < |files| ==>
      && IsAscii(Sizes(files)[i]) && ';' !in Sizes(files)[i] && ' ' !in Sizes(files)[i]
      && 0 as char !in Sizes(files)[i]
      && (|files[i].contents| <= LongMax ==> ToLong(Sizes(files)[i]) == Some(|files[i].contents|))
  {
    forall i | 0 <= i < |files|
      ensures && IsAscii(Sizes(files)[i]) && ';' !in Sizes(files)[i] && ' ' !in Sizes(files)[i]
              && 0 as char !in Sizes(files)[i]
              && (|files[i].contents| <= LongMax ==> ToLong(Sizes(files)[i]) == Some(|files[i].contents|))
    {
      DecimalIsAscii(|files[i].contents|);
      if |files[i].contents| <= LongMax {
        ParseDecimal(|files[i].contents|, LongMin, LongMax);
      }
    }
  }

  function FileNames(files: seq<StoredFile>): string { Join(Names(files), ';') }

  function FileSizes(files: seq<StoredFile>): string { Join(Sizes(files), ';') }

  /** The READY and SIZES messages that open every round. */
  function Advertisement(files: seq<StoredFile>): seq<Sent>
  {
    [Text("READY " + FileNames(files)), Text("SIZES " + FileSizes(files))]
  }

  /** The requester recovers the catalog from the two payloads: splitting on
      `;` gives back every name, and every size parses to the file's length. */
  lemma CatalogRoundTrip(files: seq<StoredFile>)
    requires |files| > 0
    requires forall i :: 0 <= i < |files| ==> ';' !in LastPathSegment(files[i].name)
    requires forall i :: 0 <= i < |files| ==> |files[i].contents| <= LongMax
    ensures Split(FileNames(files), ';') == Names(files)
    ensures Split(FileSizes(files), ';') == Sizes(files)
    ensures forall i :: 0 <= i < |files| ==>
      ToLong(Split(FileSizes(files), ';')[i]) == Some(|files[i].contents|)
  {
    JoinSplit(Names(files), ';');
    forall i | 0 <= i < |files| ensures ';' !in Sizes(files)[i] {
      DecimalIsAscii(|files[i].contents|);
    }
    JoinSplit(Sizes(files), ';');
    forall i | 0 <= i < |files|
      ensures ToLong(Sizes(files)[i]) == Some(|files[i].contents|)
    {
      ParseDecimal(|files[i].contents|, LongMin, LongMax);
    }
  }

  // ---------------------------------------------------------------------
  // Packet count

  /** `numPacksPlusReminder`: floor(length / 548), plus one when a remainder
      is left. It is ceil(length / 548), the fewest packets that hold the file. */
  function AdvertisedCount(length: nat): (r: nat)
    ensures (r - 1) * PacketSize < length <= r * PacketSize
    ensures r == 0 <==> length == 0
  {
    length / PacketSize + (if length % PacketSize == 0 then 0 else 1)
  }

  // ---------------------------------------------------------------------
  // Selection: prepareToSend and requestFileId

  /** Send READY and SIZES, then read one request. A request without a second
      field or whose second field is not an Int throws (the id is parsed
      before the tag is checked); a request whose tag is not SEND or whose id
      is outside 1..|files| is answered with ERROR and gives -1; otherwise
      the id is returned unchanged. */
  function PrepareToSend(files: seq<StoredFile>, inbox: seq<seq<byte>>): (r: Step<int>)
    ensures |r.sent| >= 2 && r.sent[..2] == Advertisement(files)
    ensures r.outcome.Done? ==> |inbox| > 0 && r.rest == inbox[1..]
    ensures r.outcome.Done? ==>
      (r.outcome.value == -1 <==> r.sent == Advertisement(files) + [Text("ERROR")])
    ensures r.outcome.Done? && r.outcome.value != -1 ==> r.sent == Advertisement(files) && 1 <= r.outcome.value <= |files|
  {
    var advertised := Advertisement(files);
    if |inbox| == 0 then Step(advertised, Blocked, [])
    else
      var requestedFile := Split(ReceivedText(inbox[0]), ' ');
      if |requestedFile| < 2 then Step(advertised, Thrown(MissingField), inbox[1..])
      else
        match ToInt(requestedFile[1])
        case None => Step(advertised, Thrown(NotANumber), inbox[1..])
        case Some(fileId) =>
          if requestedFile[0] != "SEND" || fileId < 1 || fileId > |files| then
            Step(advertised + [Text("ERROR")], Done(-1), inbox[1..])
          else
            Step(advertised, Done(fileId), inbox[1..])
  }

  /** An id that `prepareToSend` gives back is the one the request carried,
      under the SEND tag. */
  lemma PrepareToSendAccepts(files: seq<StoredFile>, inbox: seq<seq<byte>>)
    ensures var r := PrepareToSend(files, inbox);
      r.outcome.Done? && r.outcome.value != -1 ==>
        var request := Split(ReceivedText(inbox[0]), ' ');
        |request| >= 2 && request[0] == "SEND" && ToInt(request[1]) == Some(r.outcome.value)
  {
  }

  /** How `prepareToSend` treats every request, with `q` its space-separated
      fields. The id is parsed before the tag is looked at, so a request
      without a second field, or whose second field is not an Int, throws
      with no ERROR reply whatever its tag. A parsed id under another tag,
      or outside 1..|files| (0 and |files| + 1 included), is answered with
      ERROR and gives -1. A parsed id in range under the SEND tag is given
      back unchanged. With no request yet, it waits. */
  lemma PrepareToSendDecides(files: seq<StoredFile>, inbox: seq<seq<byte>>)
    ensures |inbox| == 0 ==> PrepareToSend(files, inbox) == Step(Advertisement(files), Blocked, [])
    ensures |inbox| > 0 ==>
      var q := Split(ReceivedText(inbox[0]), ' ');
      (|q| < 2 || ToInt(q[1]).None?) ==>
        && PrepareToSend(files, inbox).outcome.Thrown?
        && PrepareToSend(files, inbox).sent == Advertisement(files)
        && PrepareToSend(files, inbox).rest == inbox[1..]
    ensures |inbox| > 0 ==>
      var q := Split(ReceivedText(inbox[0]), ' ');
      (|q| >= 2 && ToInt(q[1]).Some? && (q[0] != "SEND" || ToInt(q[1]).value < 1 || ToInt(q[1]).value > |files|)) ==>
        PrepareToSend(files, inbox) == Step(Advertisement(files) + [Text("ERROR")], Done(-1), inbox[1..])
    ensures |inbox| > 0 ==>
      var q := Split(ReceivedText(inbox[0]), ' ');
      (|q| >= 2 && ToInt(q[1]).Some? && q[0] == "SEND" && 1 <= ToInt(q[1]).value <= |files|) ==>
        PrepareToSend(files, inbox) == Step(Advertisement(files), Done(ToInt(q[1]).value), inbox[1..])
  {
  }

  /** A request without an id, here the bare word HELLO, is not answered
      with ERROR: parsing its missing second field throws first. */
  lemma UntaggedWordThrows(files: seq<StoredFile>, more: seq<seq<byte>>)
    ensures PrepareToSend(files, [Bytes("HELLO")] + more)
         == Step(Advertisement(files), Thrown(MissingField), more)
  {
    ReceivedAsciiText("HELLO");
    SplitWithoutSeparator("HELLO", ' ');
    assert ([Bytes("HELLO")] + more)[1..] == more;
  }

  /** n rounds of an advertisement answered with ERROR. */
  function Rejections(files: seq<StoredFile>, n: nat): seq<Sent>
  {
    if n == 0 then [] else Advertisement(files) + [Text("ERROR")] + Rejections(files, n - 1)
  }

  /** `requestFileId`: advertise again after every rejected request. Once it
      gives an id, `files[id - 1]` is in range. */
  function RequestFileId(files: seq<StoredFile>, inbox: seq<seq<byte>>): (r: Step<int>)
    ensures |r.rest| <= |inbox|
    ensures r.outcome.Done? ==> 1 <= r.outcome.value <= |files| && |r.rest| < |inbox|
    decreases |inbox|
  {
    var attempt := PrepareToSend(files, inbox);
    if attempt.outcome == Done(-1) then
      Prepend(attempt.sent, RequestFileId(files, attempt.rest))
    else
      attempt
  }

  /** A requestFileId outcome over `received` requests that gave an id
      consumed at least one of them and sent one rejected round per request
      before the accepted one, then the advertisement that the accepted
      request answered. */
  predicate SentRejectionsFirst(files: seq<StoredFile>, received: nat, r: Step<int>)
  {
    r.outcome.Done? ==>
      |r.rest| < received && r.sent == Rejections(files, received - |r.rest| - 1) + Advertisement(files)
  }

  /** What `requestFileId` sent before giving an id. */
  lemma {:induction false} RequestFileIdSends(files: seq<StoredFile>, inbox: seq<seq<byte>>)
    ensures SentRejectionsFirst(files, |inbox|, RequestFileId(files, inbox))
    decreases |inbox|
  {
    var attempt := PrepareToSend(files, inbox);
    if attempt.outcome == Done(-1) {
      RequestFileIdSends(files, attempt.rest);
      RejectedRound(files, |inbox|, attempt, RequestFileId(files, attempt.rest));
    }
  }

  /** A rejected round in front of what the retry sent: one more rejection
      counted, against one more request consumed. */
  lemma RejectedRound(files: seq<StoredFile>, received: nat, attempt: Step<int>, later: Step<int>)
    requires attempt.sent == Advertisement(files) + [Text("ERROR")] && |attempt.rest| == received - 1
    requires SentRejectionsFirst(files, |attempt.rest|, later)
    ensures SentRejectionsFirst(files, received, Prepend(attempt.sent, later))
  {
    if later.outcome.Done? {
      var n := |attempt.rest| - |later.rest| - 1;
      assert received - |later.rest| - 1 == n + 1;
      assert Rejections(files, n + 1) == Advertisement(files) + [Text("ERROR")] + Rejections(files, n);
    }
  }

  // ---------------------------------------------------------------------
  // Streaming: sendFile

  /** The first k replies all read exactly "OK". */
  predicate Acked(inbox: seq<seq<byte>>, k: nat)
  {
    k <= |inbox| && forall i :: 0 <= i < k ==> ReceivedText(inbox[i]) == "OK"
  }

  /** Stop-and-wait: send one packet, wait for one reply, and go on only if
      that reply reads exactly "OK". */
  function StopAndWait(packets: seq<seq<byte>>, inbox: seq<seq<byte>>): (r: Step<()>)
    ensures |r.rest| <= |inbox|
    decreases |packets|
  {
    if |packets| == 0 then Step([], Done(()), inbox)
    else if |inbox| == 0 then Step([Raw(packets[0])], Blocked, [])
    else
      var confirmation := ReceivedText(inbox[0]);
      if confirmation != "OK" then
        Step([Raw(packets[0])], Thrown(BadAck(confirmation)), inbox[1..])
      else
        Prepend([Raw(packets[0])], StopAndWait(packets[1..], inbox[1..]))
  }

  /** Stop-and-wait sends a prefix of the packets, in order, and leaves a
      suffix of the replies unread. */
  lemma {:induction false} StopAndWaitSendsPrefix(packets: seq<seq<byte>>, inbox: seq<seq<byte>>)
    ensures |StopAndWait(packets, inbox).sent| <= |packets|
    ensures forall i :: 0 <= i < |StopAndWait(packets, inbox).sent| ==>
      StopAndWait(packets, inbox).sent[i] == Raw(packets[i])
    ensures StopAndWait(packets, inbox).rest
         == inbox[|inbox| - |StopAndWait(packets, inbox).rest|..]
    decreases |packets|
  {
    if |packets| > 0 && |inbox| > 0 && ReceivedText(inbox[0]) == "OK" {
      var next := StopAndWait(packets[1..], inbox[1..]);
      StopAndWaitSendsPrefix(packets[1..], inbox[1..]);
      var r := StopAndWait(packets, inbox);
      assert r.sent == [Raw(packets[0])] + next.sent;
      forall i | 0 <= i < |r.sent| ensures r.sent[i] == Raw(packets[i]) {
        if i > 0 { assert r.sent[i] == next.sent[i - 1]; }
      }
      assert inbox[1..][|inbox[1..]| - |next.rest|..] == inbox[|inbox| - |r.rest|..];
    }
  }

  /** How a stream ends: it completes after every packet when the first
      |packets| replies read exactly "OK"; it blocks, one packet past the
      replies, when every reply that arrived read "OK" and too few arrived;
      and otherwise the first reply that does not read "OK" stops it, nothing
      being sent after the packet that reply answers. */
  lemma {:induction false} StopAndWaitOutcome(packets: seq<seq<byte>>, inbox: seq<seq<byte>>)
    ensures StopAndWait(packets, inbox).outcome.Done? <==> Acked(inbox, |packets|)
    ensures StopAndWait(packets, inbox).outcome.Done? ==>
      |StopAndWait(packets, inbox).sent| == |packets|
      && |StopAndWait(packets, inbox).rest| == |inbox| - |packets|
    ensures StopAndWait(packets, inbox).outcome.Blocked? ==>
      |StopAndWait(packets, inbox).sent| == |inbox| + 1 && Acked(inbox, |inbox|)
    ensures StopAndWait(packets, inbox).outcome.Thrown? ==>
      var k := |StopAndWait(packets, inbox).sent|;
      && 0 < k <= |inbox| && Acked(inbox, k - 1)
      && StopAndWait(packets, inbox).outcome.fault == BadAck(ReceivedText(inbox[k - 1]))
      && ReceivedText(inbox[k - 1]) != "OK"
      && |StopAndWait(packets, inbox).rest| == |inbox| - k
    decreases |packets|
  {
    if |packets| > 0 && |inbox| > 0 && ReceivedText(inbox[0]) == "OK" {
      var next := StopAndWait(packets[1..], inbox[1..]);
      StopAndWaitOutcome(packets[1..], inbox[1..]);
      var r := StopAndWait(packets, inbox);
      assert r.outcome == next.outcome && |r.sent| == |next.sent| + 1 && r.rest == next.rest;
      assert Acked(inbox, |packets|) <==> Acked(inbox[1..], |packets| - 1) by {
        if Acked(inbox[1..], |packets| - 1) {
          forall i | 0 <= i < |packets| ensures ReceivedText(inbox[i]) == "OK" {
            if i > 0 { assert inbox[i] == inbox[1..][i - 1]; }
          }
        }
      }
      if r.outcome.Blocked? {
        forall i | 0 <= i < |inbox| ensures ReceivedText(inbox[i]) == "OK" {
          if i > 0 { assert inbox[i] == inbox[1..][i - 1]; }
        }
      }
      if r.outcome.Thrown? {
        var k := |r.sent|;
        assert inbox[k - 1] == inbox[1..][k - 2];
        forall i | 0 <= i < k - 1 ensures ReceivedText(inbox[i]) == "OK" {
          if i > 0 { assert inbox[i] == inbox[1..][i - 1]; }
        }
      }
    } else if |packets| > 0 && |inbox| == 0 {
      assert !Acked(inbox, |packets|);
    } else if |packets| > 0 {
      assert !Acked(inbox, |packets|) by { assert ReceivedText(inbox[0]) != "OK"; }
    }
  }

  /** The i-th pass reads bytes [548 i, 548 (i + 1)) of the file, clipped to
      its end: a full piece, the remainder, or nothing once the file is out. */
  lemma {:induction false} PacketAt(c: seq<byte>, count: int, i: nat)
    requires i < count
    ensures |Packets(c, PacketSize, count)| == count
    ensures Packets(c, PacketSize, count)[i] == c[Min(i * PacketSize, |c|)..Min(i * PacketSize + PacketSize, |c|)]
    decreases i
  {
    PacketsShape(c, PacketSize, count);
    var rest := if |c| >= PacketSize then c[PacketSize..] else [];
    var p := Packets(c, PacketSize, count);
    assert p[1..] == Packets(rest, PacketSize, count - 1);
    if i > 0 {
      PacketAt(rest, count - 1, i - 1);
      assert p[i] == Packets(rest, PacketSize, count - 1)[i - 1];
      if |c| >= PacketSize {
        WindowShift(c, i);
      }
    } else if |c| < PacketSize {
      assert c[0..|c|] == c;
    }
  }

  /** Window i - 1 of the file less its first packet is window i of the file. */
  lemma WindowShift(c: seq<byte>, i: nat)
    requires |c| >= PacketSize && i > 0
    ensures c[PacketSize..][Min((i - 1) * PacketSize, |c| - PacketSize)..Min(i * PacketSize, |c| - PacketSize)]
         == c[Min(i * PacketSize, |c|)..Min(i * PacketSize + PacketSize, |c|)]
  {
    var lo := Min((i - 1) * PacketSize, |c| - PacketSize);
    var hi := Min(i * PacketSize, |c| - PacketSize);
    assert lo + PacketSize == Min(i * PacketSize, |c|);
    assert hi + PacketSize == Min(i * PacketSize + PacketSize, |c|);
    assert c[PacketSize..][lo..hi] == c[lo + PacketSize..hi + PacketSize];
  }

  /** The i-th of `count` passes reads bytes [548 i, 548 (i + 1)) of the
      file, clipped to its end: a full piece, the remainder, or nothing once
      the file is out. */
  function Passes(c: seq<byte>, count: int): (ps: seq<seq<byte>>)
    ensures |ps| == if count < 0 then 0 else count
  {
    seq(if count < 0 then 0 else count,
        i requires 0 <= i => c[Min(i * PacketSize, |c|)..Min(i * PacketSize + PacketSize, |c|)])
  }

  /** Pass i of `count` is the i-th window of the file. */
  lemma PassAt(c: seq<byte>, count: int, i: nat)
    requires i < count
    ensures Passes(c, count)[i] == c[Min(i * PacketSize, |c|)..Min(i * PacketSize + PacketSize, |c|)]
  {
  }

  /** The passes, read off by index, are the packets the loop reads one after
      the other. */
  lemma PassesArePackets(c: seq<byte>, count: int)
    ensures Passes(c, count) == Packets(c, PacketSize, count)
  {
    PacketsShape(c, PacketSize, count);
    forall i | 0 <= i < |Passes(c, count)| ensures Passes(c, count)[i] == Packets(c, PacketSize, count)[i] {
      PacketAt(c, count, i);
    }
  }

  /** Stop-and-wait from the k-th packet and reply on, one step unfolded,
      with `sent` already out before it. */
  lemma StopAndWaitAt(packets: seq<seq<byte>>, inbox: seq<seq<byte>>, k: nat, sent: seq<Sent>)
    requires k <= |packets| && k <= |inbox|
    ensures k == |packets| ==>
      Prepend(sent, StopAndWait(packets[k..], inbox[k..])) == Step(sent, Done(()), inbox[k..])
    ensures k < |packets| && k == |inbox| ==>
      Prepend(sent, StopAndWait(packets[k..], inbox[k..])) == Step(sent + [Raw(packets[k])], Blocked, [])
    ensures k < |packets| && k < |inbox| && ReceivedText(inbox[k]) != "OK" ==>
      Prepend(sent, StopAndWait(packets[k..], inbox[k..]))
      == Step(sent + [Raw(packets[k])], Thrown(BadAck(ReceivedText(inbox[k]))), inbox[k + 1..])
    ensures k < |packets| && k < |inbox| && ReceivedText(inbox[k]) == "OK" ==>
      Prepend(sent, StopAndWait(packets[k..], inbox[k..]))
      == Prepend(sent + [Raw(packets[k])], StopAndWait(packets[k + 1..], inbox[k + 1..]))
  {
    assert sent + [] == sent;
    if k < |packets| {
      assert packets[k..][0] == packets[k] && packets[k..][1..] == packets[k + 1..];
      if k < |inbox| {
        assert inbox[k..][0] == inbox[k] && inbox[k..][1..] == inbox[k + 1..];
        var later := StopAndWait(packets[k + 1..], inbox[k + 1..]);
        assert sent + ([Raw(packets[k])] + later.sent) == (sent + [Raw(packets[k])]) + later.sent;
      }
    }
  }

  /** `sendFile(file, numPacks)`: passes while `currPack <= numPacks`, each
      reading the next 548 bytes, or the remainder when fewer are left, then
      waiting for the acknowledgment. */
  method SendFile(contents: seq<byte>, numPacks: int, inbox: seq<seq<byte>>) returns (r: Step<()>)
    ensures r == StopAndWait(Passes(contents, numPacks + 1), inbox)
  {
    var n := |contents|;
    var currPack := 0;
    var bytesSentSoFar := 0;
    var sent: seq<Sent> := [];
    ghost var packets := Passes(contents, numPacks + 1);
    assert packets[0..] == packets && inbox[0..] == inbox && [] + StopAndWait(packets, inbox).sent == StopAndWait(packets, inbox).sent;
    while currPack <= numPacks
      invariant 0 <= currPack <= |inbox| && currPack <= |packets|
      invariant bytesSentSoFar == Min(currPack * PacketSize, n)
      invariant Prepend(sent, StopAndWait(packets[currPack..], inbox[currPack..])) == StopAndWait(packets, inbox)
      decreases numPacks + 1 - currPack
    {
      StopAndWaitAt(packets, inbox, currPack, sent);
      var start := bytesSentSoFar;
      var buff := PacketSize;
      if n - bytesSentSoFar >= buff {
        bytesSentSoFar := bytesSentSoFar + buff;
      } else {
        buff := n - bytesSentSoFar;
        bytesSentSoFar := n;
      }
      assert start + buff == Min(currPack * PacketSize + PacketSize, n) == bytesSentSoFar;
      var fileContent := contents[start..start + buff];
      PassAt(contents, numPacks + 1, currPack);
      assert fileContent == packets[currPack];
      if currPack == |inbox| {
        return Step(sent + [Raw(fileContent)], Blocked, []);
      }
      var confirmation := Unpackage(inbox[currPack]);
      if confirmation != "OK" {
        return Step(sent + [Raw(fileContent)], Thrown(BadAck(confirmation)), inbox[currPack + 1..]);
      }
      assert ReceivedText(inbox[currPack]) == "OK";
      sent := sent + [Raw(fileContent)];
      assert Prepend(sent, StopAndWait(packets[currPack + 1..], inbox[currPack + 1..])) == StopAndWait(packets, inbox);
      currPack := currPack + 1;
    }
    r := Step(sent, Done(()), inbox[currPack..]);
  }

  /** When `count` passes are just enough for `c` (the first count - 1 of
      them cannot hold it all, the count can), the packets are the file,
      every one but the last a full 548 bytes. */
  lemma {:induction false} PacketsCover(c: seq<byte>, count: int)
    requires (count - 1) * PacketSize <= |c| < count * PacketSize
    ensures Flatten(Packets(c, PacketSize, count)) == c
    ensures forall i :: 0 <= i < |Packets(c, PacketSize, count)| - 1 ==> |Packets(c, PacketSize, count)[i]| == PacketSize
    decreases if count < 0 then 0 else count
  {
    if |c| >= PacketSize {
      PacketsCover(c[PacketSize..], count - 1);
      var r := Packets(c, PacketSize, count);
      var tail := Packets(c[PacketSize..], PacketSize, count - 1);
      assert r == [c[..PacketSize]] + tail;
      assert r[1..] == tail;
      assert c[..PacketSize] + c[PacketSize..] == c;
      forall i | 0 <= i < |r| - 1 ensures |r[i]| == PacketSize {
        if i > 0 { assert r[i] == tail[i - 1]; }
      }
    } else {
      assert Packets(c, PacketSize, count) == [c];
    }
  }

  /** The datagrams `executeProtocol` streams for a file: floor(n / 548) + 1 passes. */
  function Stream(c: seq<byte>): seq<seq<byte>>
  {
    Packets(c, PacketSize, |c| / PacketSize + 1)
  }

  /** The sender makes floor(n / 548) + 1 passes: the file's 548-byte pieces,
      then one empty datagram more when 548 divides n. */
  lemma {:induction false} PassesVersusPieces(c: seq<byte>)
    ensures Stream(c)
         == Chunks(c, PacketSize) + (if |c| % PacketSize == 0 then [[]] else [])
    decreases |c|
  {
    if |c| > PacketSize {
      PassesVersusPieces(c[PacketSize..]);
      assert (|c| - PacketSize) / PacketSize + 1 == |c| / PacketSize;
      assert (|c| - PacketSize) % PacketSize == |c| % PacketSize;
    } else if |c| == PacketSize {
      assert c[..PacketSize] == c && c[PacketSize..] == [];
      assert Packets(c[PacketSize..], PacketSize, 1) == [[]];
    }
  }

  /** The count the sender advertises is ceil(n / 548) while it sends
      floor(n / 548) + 1 datagrams: the same when 548 does not divide n, one
      more (the trailing empty datagram) when it does, an empty file included. */
  lemma DatagramCountVersusAdvertised(c: seq<byte>)
    ensures |Stream(c)|
         == AdvertisedCount(|c|) + (if |c| % PacketSize == 0 then 1 else 0)
  {
    PassesVersusPieces(c);
    ChunksCount(c, PacketSize);
  }

  /** Every datagram of the stream carries at most 548 bytes, all but the last
      exactly 548, and together they are the file. */
  lemma StreamShape(c: seq<byte>)
    ensures Flatten(Stream(c)) == c
    ensures forall i :: 0 <= i < |Stream(c)| ==>
      |Stream(c)[i]| <= PacketSize
    ensures forall i :: 0 <= i < |Stream(c)| - 1 ==>
      |Stream(c)[i]| == PacketSize
  {
    var count := |c| / PacketSize + 1;
    assert (count - 1) * PacketSize <= |c| < count * PacketSize;
    PacketsCover(c, count);
    PacketsShape(c, PacketSize, count);
  }

  /** A 2000-byte file: NUM 4, and packets of 548, 548, 548 and 356 bytes. */
  lemma TwoThousandBytes(c: seq<byte>)
    requires |c| == 2000
    ensures AdvertisedCount(|c|) == 4
    ensures |Stream(c)| == 4
    ensures |Stream(c)[0]| == 548
    ensures |Stream(c)[1]| == 548
    ensures |Stream(c)[2]| == 548
    ensures |Stream(c)[3]| == 356
  {
    assert |c| / PacketSize + 1 == 4;
    var c1 := c[548..];
    var c2 := c1[548..];
    var c3 := c2[548..];
    PacketsUnfold(c, PacketSize, 4);
    PacketsUnfold(c1, PacketSize, 3);
    PacketsUnfold(c2, PacketSize, 2);
    PacketsUnfold(c3, PacketSize, 1);
    assert Packets(c3[356..], PacketSize, 0) == [];
  }

  // ---------------------------------------------------------------------
  // One round, and the session: executeProtocol and communicateWithClient

  /** `executeProtocol`: take a valid id, send `NUM` with ceil(n / 548), send
      the digest bare (no HASH tag), stream floor(n / 548) + 1 packets, and
      return the text of the next datagram as the verdict. */
  function ExecuteProtocol(files: seq<StoredFile>, digest: seq<byte> -> string, inbox: seq<seq<byte>>): (r: Step<string>)
    ensures |r.rest| <= |inbox|
    ensures r.outcome.Done? ==> |r.rest| < |inbox|
  {
    var selection := RequestFileId(files, inbox);
    if !selection.outcome.Done? then Step(selection.sent, Propagate(selection.outcome), selection.rest)
    else
      var contents := files[selection.outcome.value - 1].contents;
      var numPacks := |contents| / PacketSize;
      var metadata := [Text("NUM " + Decimal(AdvertisedCount(|contents|))), Text(digest(contents))];
      var stream := StopAndWait(Packets(contents, PacketSize, numPacks + 1), selection.rest);
      var sent := selection.sent + metadata + stream.sent;
      if !stream.outcome.Done? then Step(sent, Propagate(stream.outcome), stream.rest)
      else if |stream.rest| == 0 then Step(sent, Blocked, [])
      else Step(sent, Done(ReceivedText(stream.rest[0])), stream.rest[1..])
  }

  /** `communicateWithClient`: a round whose verdict is exactly "ERROR" starts
      the whole exchange again; any other verdict ends the session and is its
      result, so the session never ends with "ERROR". */
  function CommunicateWithClient(files: seq<StoredFile>, digest: seq<byte> -> string, inbox: seq<seq<byte>>): (r: Step<string>)
    ensures r.outcome.Done? ==> r.outcome.value != "ERROR"
    ensures ExecuteProtocol(files, digest, inbox).outcome != Done("ERROR") ==>
      r == ExecuteProtocol(files, digest, inbox)
    decreases |inbox|
  {
    var round := ExecuteProtocol(files, digest, inbox);
    if round.outcome == Done("ERROR") then
      Prepend(round.sent, CommunicateWithClient(files, digest, round.rest))
    else
      round
  }

  /** An ASCII text without NUL that fits in one buffer arrives as sent. */
  lemma ReceivedAsciiText(text: string)
    requires IsAscii(text) && 0 as char !in text && |text| <= PacketSize
    ensures ReceivedText(Bytes(text)) == text
  {
    var d := Bytes(text);
    forall i | 0 <= i < |d| ensures d[i] != 0 {
      assert text[i] != 0 as char;
    }
    var buffer := Fit(d, PacketSize);
    assert buffer[..|d|] == d;
    ZeroFreePrefixUnique(buffer, d);
    CharsOfBytes(text);
  }

  /** `"SEND <digits>".split(" ")` is the tag and the digits. */
  lemma SplitRequest(digits: string)
    requires ' ' !in digits
    ensures Split("SEND " + digits, ' ') == ["SEND", digits]
  {
    var tag := "SEND";
    assert ' ' !in tag;
    assert "SEND " == tag + [' '];
    SplitAppend(tag, digits, ' ');
    SplitWithoutSeparator(tag, ' ');
    SplitWithoutSeparator(digits, ' ');
  }

  /** A well-formed `SEND <id>` for a listed file is accepted with that id. */
  lemma SelectionAccepted(files: seq<StoredFile>, id: int, more: seq<seq<byte>>)
    requires 1 <= id <= |files| && id <= IntMax
    ensures PrepareToSend(files, [Bytes("SEND " + Decimal(id))] + more)
         == Step(Advertisement(files), Done(id), more)
  {
    var digits := Decimal(id);
    DecimalIsAscii(id);
    NatDecimalLength(id, 10);
    assert |"SEND " + digits| <= PacketSize;
    ReceivedAsciiText("SEND " + digits);
    SplitRequest(digits);
    ParseDecimal(id, IntMin, IntMax);
    assert ([Bytes("SEND " + digits)] + more)[1..] == more;
  }
}
