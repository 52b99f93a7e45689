/**
  receiveLoop: the loop a chat's receiving thread runs. Each pass reads a
  7-byte frame header with _recv_loop (a failure ends the loop), converts
  its fields with ntohs/ntohl, and dispatches on the magic byte:
    NAME     reads shortInt bytes over the front of the chat's name buffer
             and puts a NUL at index shortInt;
    MESSAGE  reads longInt bytes of text into a fresh buffer and prepends a
             message with id shortInt to the incoming history, even when
             the read failed;
    DELETE   removes the first incoming message with id shortInt;
    FILE     reads shortInt bytes of file name, opens that file with mode
             "rb", and copies shortInt body bytes (the C code takes the
             body's length from shortInt, not from longInt) from the socket
             to the file in chunks of at most 1024 bytes;
    END      ends the loop;
  and an unknown magic is skipped. A failed read in NAME, MESSAGE or FILE,
  a failed fopen and a short fwrite end the loop after the pass. Since a
  stream opened "rb" accepts no write and fopen refuses the empty path,
  every FILE pass ends the loop and no file is written. The loop never
  unregisters its chat (its call of removeChat is commented out).

  The loop's effect is stated as a fold: the ghost results list one Frame
  per pass, the bytes of the stream they consumed are the front of what the
  peer sent, and the chat's name and incoming history are those the frames
  produce one after the other; what the chat has sent stays as it was.
 */
module Receiver {
  import opened Options
  import opened CStrings
  import opened Lists
  import opened Protocol
  import opened Net
  import opened Messages
  import opened Files
  import opened Session

  /**
    One pass of the loop after a complete header: the header as parsed; the
    bytes _recv_loop read after it (a NAME's name, a MESSAGE's text, a
    FILE's name); for a FILE, whether fopen returned a stream, the body
    bytes the chunk loop took from the socket and the bytes fwrite wrote of
    them; and the time(NULL) the pass would stamp a message with.
   */
  datatype Frame = Frame(header: Header, payload: seq<bv8>, fileOpen: bool, body: seq<bv8>, written: seq<bv8>, time: int)

  /** The bytes of the stream one pass consumed. */
  function Consumed(f: Frame): seq<bv8> {
    Encode(f.header) + f.payload + f.body
  }

  /** The bytes of the stream the passes consumed, in order. */
  function Wire(frames: seq<Frame>): seq<bv8> {
    if frames == [] then [] else Wire(frames[..|frames| - 1]) + Consumed(frames[|frames| - 1])
  }

  /**
    What the reads of one pass can have taken: no more bytes than the header
    announces, and, for a FILE, a body read only once fopen returned a
    stream, which it does for a non-empty name only, and of at most one
    chunk, since the first fwrite to that read-only stream writes nothing.
   */
  ghost predicate Possible(f: Frame) {
    var n := f.header.shortInt as nat;
    match MagicOf(f.header.magic)
    case Some(IndicateName) => |f.payload| <= n && !f.fileOpen && f.body == [] && f.written == []
    case Some(SendMessage) => |f.payload| <= f.header.longInt as nat && !f.fileOpen && f.body == [] && f.written == []
    case Some(SendFile) =>
      && |f.payload| <= n && |f.body| <= n && |f.body| <= ChunkSize
      && (!f.fileOpen ==> f.body == [])
      && (f.fileOpen ==> UpToNul(f.payload) != [])
      && f.written == []
    case _ => f.payload == [] && !f.fileOpen && f.body == [] && f.written == []
  }

  /** For a FILE pass, fopen(name, "rb") returned a stream just when `disk` has the name the pass read. */
  ghost predicate OpensOn(f: Frame, disk: Disk) {
    MagicOf(f.header.magic) == Some(SendFile) ==> (f.fileOpen <==> Opens(disk, UpToNul(f.payload)))
  }

  /** continue_receive_loop is still 1 after the pass. */
  ghost predicate Continues(f: Frame) {
    var n := f.header.shortInt as nat;
    match MagicOf(f.header.magic)
    case Some(IndicateName) => |f.payload| == n
    case Some(SendMessage) => |f.payload| == f.header.longInt as nat
    case Some(DeleteMessage) => true
    case Some(SendFile) => |f.payload| == n && f.fileOpen && |f.body| == n && f.written == f.body
    case Some(EndChat) => false
    case None => true
  }

  /**
    What the loop can change or must keep of a chat: its name buffer and
    incoming history, which the passes change; and its outgoing counter and
    history and the bytes it has sent to the peer, which no pass touches.
   */
  datatype View = View(name: seq<bv8>, messagesIn: seq<Message>,
                       outCounter: bv16, messagesOut: seq<Message>, sent: seq<bv8>)

  ghost function ViewOf(c: Chat): View
    reads c, c.name, c.messagesIn, c.messagesOut, c.sock
  {
    View(c.name[..], c.messagesIn.Contents, c.outCounter, c.messagesOut.Contents, c.sock.sent)
  }

  /**
    The name buffer after a NAME pass that read `payload` of the `n` bytes
    announced: the bytes read over its front, the old bytes up to index
    `n`, a NUL there, and the old bytes after it.
   */
  function Renamed(name: seq<bv8>, payload: seq<bv8>, n: nat): (r: seq<bv8>)
    requires |payload| <= n < |name|
    ensures |r| == |name| && r[..|payload|] == payload && r[n] == 0
    ensures r[|payload|..n] == name[|payload|..n] && r[n + 1..] == name[n + 1..]
  {
    (payload + name[|payload|..])[n := 0]
  }

  /** What one pass does to the chat: a FILE pass, which writes nothing, leaves it as it was. */
  ghost function Apply(v: View, f: Frame): (w: View)
    requires |v.name| == NameCapacity && Possible(f)
    ensures |w.name| == NameCapacity
  {
    match MagicOf(f.header.magic)
    case Some(IndicateName) => v.(name := Renamed(v.name, f.payload, f.header.shortInt as nat))
    case Some(SendMessage) => v.(messagesIn := [Message(f.header.shortInt, f.time, UpToNul(f.payload))] + v.messagesIn)
    case Some(DeleteMessage) => v.(messagesIn := WithoutFirstId(v.messagesIn, f.header.shortInt))
    case _ => v
  }

  /** Every pass of `frames` is Possible. */
  ghost predicate AllPossible(frames: seq<Frame>) {
    frames == [] || (AllPossible(frames[..|frames| - 1]) && Possible(frames[|frames| - 1]))
  }

  /** Pass i of `frames` was stamped with clock(i). */
  ghost predicate Stamped(frames: seq<Frame>, clock: nat -> int) {
    frames == [] || (Stamped(frames[..|frames| - 1], clock) && frames[|frames| - 1].time == clock(|frames| - 1))
  }

  /** Every FILE pass of `frames` asked `disk` whether the name it read opens. */
  ghost predicate AllOpensOn(frames: seq<Frame>, disk: Disk) {
    frames == [] || (AllOpensOn(frames[..|frames| - 1], disk) && OpensOn(frames[|frames| - 1], disk))
  }

  /** Every pass of `frames` left continue_receive_loop set. */
  ghost predicate AllContinue(frames: seq<Frame>) {
    frames == [] || (AllContinue(frames[..|frames| - 1]) && Continues(frames[|frames| - 1]))
  }

  /** AllPossible says Possible of each pass. */
  lemma {:induction false} EachPossible(frames: seq<Frame>)
    ensures AllPossible(frames) <==> forall i :: 0 <= i < |frames| ==> Possible(frames[i])
  {
    if frames != [] {
      var front := frames[..|frames| - 1];
      EachPossible(front);
      assert forall i :: 0 <= i < |front| ==> front[i] == frames[i];
    }
  }

  /** Stamped says that pass i carries clock(i). */
  lemma {:induction false} EachStamped(frames: seq<Frame>, clock: nat -> int)
    ensures Stamped(frames, clock) <==> forall i :: 0 <= i < |frames| ==> frames[i].time == clock(i)
  {
    if frames != [] {
      var front := frames[..|frames| - 1];
      EachStamped(front, clock);
      assert forall i :: 0 <= i < |front| ==> front[i] == frames[i];
    }
  }

  /** AllContinue says Continues of each pass. */
  lemma {:induction false} EachContinues(frames: seq<Frame>)
    ensures AllContinue(frames) <==> forall i :: 0 <= i < |frames| ==> Continues(frames[i])
  {
    if frames != [] {
      var front := frames[..|frames| - 1];
      EachContinues(front);
      assert forall i :: 0 <= i < |front| ==> front[i] == frames[i];
    }
  }

  /** What the passes do to the chat, one after the other. */
  ghost function ApplyAll(v: View, frames: seq<Frame>): (w: View)
    requires |v.name| == NameCapacity && AllPossible(frames)
    ensures |w.name| == NameCapacity
  {
    if frames == [] then v else Apply(ApplyAll(v, frames[..|frames| - 1]), frames[|frames| - 1])
  }

  /**
    A pass that read a complete header from a stream starting with the
    encoding of `h` read `h` itself, and read the rest of what it consumed
    from the bytes after it.
   */
  lemma HeaderAgrees(f: Frame, h: Header, rest: seq<bv8>, after: seq<bv8>)
    requires Encode(h) + rest == Consumed(f) + after
    ensures f.header == h && rest == f.payload + f.body + after
  {
    var s := Encode(h) + rest;
    assert s == Encode(f.header) + (f.payload + f.body + after);
    assert s[..HeaderSize] == Encode(h) && s[..HeaderSize] == Encode(f.header);
    DecodeEncode(h);
    DecodeEncode(f.header);
    assert s[HeaderSize..] == rest && s[HeaderSize..] == f.payload + f.body + after;
  }

  /**
    The pass that meets a frame of _declare_name_to_chat for a name of `n`
    bytes (so shorter than 2^16) reads a prefix of the name; it goes on exactly when it
    read all of it, and then the chat's name buffer holds that name and the
    stream is left at the next frame.
   */
  lemma NamePass(v: View, f: Frame, n: bv16, name: CStr, rest: seq<bv8>, after: seq<bv8>)
    requires |name| == n as nat && |v.name| == NameCapacity && Possible(f)
    requires NameFrame(name) + rest == Consumed(f) + after
    ensures f.header == Header(IndicateName.Code(), n, 0) && f.payload <= name
    ensures Continues(f) <==> f.payload == name
    ensures Continues(f) ==> after == rest && 0 in Apply(v, f).name && CString(Apply(v, f).name) == name
  {
    NameFrameOf(n, name);
    FrameRead(f, Header(IndicateName.Code(), n, 0), name, rest, after);
    NameRead(f, n, name, rest, after);
    if Continues(f) {
      NameApplied(v, f, n, name);
    }
  }

  /** What a NAME pass with shortInt `n` read of a stream holding `name` (of `n` bytes) and then `rest`. */
  lemma NameRead(f: Frame, n: bv16, name: CStr, rest: seq<bv8>, after: seq<bv8>)
    requires |name| == n as nat && Possible(f)
    requires f.header == Header(IndicateName.Code(), n, 0) && name + rest == f.payload + f.body + after
    ensures f.payload <= name && (Continues(f) <==> f.payload == name)
    ensures Continues(f) ==> after == rest
  {
    assert f.payload + f.body + after == f.payload + after;
    PrefixRead(f.payload, name, rest, after);
  }

  /** A NAME pass that read all of `name` leaves it in the chat's name buffer. */
  lemma NameApplied(v: View, f: Frame, n: bv16, name: CStr)
    requires |name| == n as nat && |v.name| == NameCapacity && Possible(f)
    requires f.header == Header(IndicateName.Code(), n, 0) && f.payload == name
    ensures 0 in Apply(v, f).name && CString(Apply(v, f).name) == name
  {
    RenamedTo(v.name, name, n as nat);
  }

  /**
    A pass that read a complete header from a stream holding the encoding
    of `h`, then `x`, then `rest`, read `h`, and read the rest of what it
    consumed from `x` and `rest`.
   */
  lemma FrameRead(f: Frame, h: Header, x: seq<bv8>, rest: seq<bv8>, after: seq<bv8>)
    requires Encode(h) + x + rest == Consumed(f) + after
    ensures f.header == h && x + rest == f.payload + f.body + after
  {
    assert Encode(h) + x + rest == Encode(h) + (x + rest);
    HeaderAgrees(f, h, x + rest, after);
  }

  /** Bytes read from a stream holding `x` and then `rest`, no more than |x| of them: a prefix of `x`, all of it just when as many. */
  lemma PrefixRead(p: seq<bv8>, x: seq<bv8>, rest: seq<bv8>, after: seq<bv8>)
    requires x + rest == p + after && |p| <= |x|
    ensures p <= x && (p == x <==> |p| == |x|)
    ensures |p| == |x| ==> after == rest
  {
    assert p == (x + rest)[..|p|] == x[..|p|];
    if |p| == |x| {
      assert after == (x + rest)[|x|..] == rest;
    }
  }

  /** A name buffer renamed with all `n` bytes of a name holds that name. */
  lemma RenamedTo(buf: seq<bv8>, name: CStr, n: nat)
    requires |name| == n < |buf|
    ensures 0 in Renamed(buf, name, n) && CString(Renamed(buf, name, n)) == name
  {
    var r := Renamed(buf, name, n);
    assert r[..n + 1] == name + [0];
    CStringOfTerminated(name, r);
  }

  /**
    The pass that meets a frame of sendMessage for a text of `len` bytes
    (so shorter than 2^32) reads a prefix of the text; it goes on exactly when it read all
    of it, and then the text heads the incoming history under the id sent,
    stamped with the pass's time, and the stream is left at the next frame.
   */
  lemma MessagePass(v: View, f: Frame, id: bv16, len: bv32, text: CStr, rest: seq<bv8>, after: seq<bv8>)
    requires |text| == len as nat && |v.name| == NameCapacity && Possible(f)
    requires MessageFrame(id, text) + rest == Consumed(f) + after
    ensures f.header == Header(SendMessage.Code(), id, len) && f.payload <= text
    ensures Continues(f) <==> f.payload == text
    ensures Continues(f) ==> after == rest && Apply(v, f).messagesIn == [Message(id, f.time, text)] + v.messagesIn
  {
    MessageFrameOf(id, len, text);
    FrameRead(f, Header(SendMessage.Code(), id, len), text, rest, after);
    MessageRead(f, id, len, text, rest, after);
    if Continues(f) {
      MessageApplied(v, f, id, len, text);
    }
  }

  /** What a MESSAGE pass with longInt `len` read of a stream holding `text` (of `len` bytes) and then `rest`. */
  lemma MessageRead(f: Frame, id: bv16, len: bv32, text: CStr, rest: seq<bv8>, after: seq<bv8>)
    requires |text| == len as nat && Possible(f)
    requires f.header == Header(SendMessage.Code(), id, len) && text + rest == f.payload + f.body + after
    ensures f.payload <= text && (Continues(f) <==> f.payload == text)
    ensures Continues(f) ==> after == rest
  {
    assert f.payload + f.body + after == f.payload + after;
    PrefixRead(f.payload, text, rest, after);
  }

  /** A MESSAGE pass that read all of `text` puts it at the head of the incoming history. */
  lemma MessageApplied(v: View, f: Frame, id: bv16, len: bv32, text: CStr)
    requires |v.name| == NameCapacity && Possible(f)
    requires f.header == Header(SendMessage.Code(), id, len) && f.payload == text
    ensures Apply(v, f).messagesIn == [Message(id, f.time, text)] + v.messagesIn
  {
    assert UpToNul(f.payload) == text;
  }

  /**
    The pass that meets a frame of deleteMessage consumes just its header,
    goes on, and removes the first incoming message with the id sent.
   */
  lemma DeletePass(v: View, f: Frame, id: bv16, rest: seq<bv8>, after: seq<bv8>)
    requires |v.name| == NameCapacity && Possible(f)
    requires DeleteFrame(id) + rest == Consumed(f) + after
    ensures f.header == Header(DeleteMessage.Code(), id, 0) && after == rest && Continues(f)
    ensures Apply(v, f) == v.(messagesIn := WithoutFirstId(v.messagesIn, id))
  {
    HeaderAgrees(f, Header(DeleteMessage.Code(), id, 0), rest, after);
  }

  /**
    The pass that meets the frame of closeChat consumes just its header,
    ends the loop, and changes nothing.
   */
  lemma EndPass(v: View, f: Frame, rest: seq<bv8>, after: seq<bv8>)
    requires |v.name| == NameCapacity && Possible(f)
    requires EndFrame() + rest == Consumed(f) + after
    ensures f.header == Header(EndChat.Code(), 0, 0) && after == rest && !Continues(f)
    ensures Apply(v, f) == v
  {
    HeaderAgrees(f, Header(EndChat.Code(), 0, 0), rest, after);
  }

  /**
    The pass that meets a frame of sendFile (the header, the file name, the
    file's bytes) for a name of `n` bytes (so shorter than 2^16) reads a
    prefix of the name; once it read all of it, the body bytes it took are
    the front of the file's bytes and what follows them. However the frame
    goes on, the pass ends the loop and leaves the chat as it was.
   */
  lemma FilePass(v: View, f: Frame, n: bv16, filename: CStr, data: seq<bv8>, rest: seq<bv8>, after: seq<bv8>)
    requires |filename| == n as nat && |v.name| == NameCapacity && Possible(f)
    requires FileHeader(filename, |data|) + filename + data + rest == Consumed(f) + after
    ensures f.header == Header(SendFile.Code(), n, Trunc32(|data|) as bv32)
    ensures f.payload <= filename
    ensures f.payload == filename ==> data + rest == f.body + after
    ensures !Continues(f) && Apply(v, f) == v
  {
    var h := Header(SendFile.Code(), n, Trunc32(|data|) as bv32);
    FileHeaderOf(n, filename, |data|);
    assert Encode(h) + filename + data + rest == Encode(h) + (filename + (data + rest));
    HeaderAgrees(f, h, filename + (data + rest), after);
    PrefixRead(f.payload, filename, data + rest, f.body + after);
    if f.payload == filename {
      assert filename + (data + rest) == filename + (f.body + after);
    }
    FileEnds(f);
  }

  /**
    A FILE pass never leaves continue_receive_loop set: a stream opened
    needs a non-empty name, so a complete read of it announces a non-empty
    body, of which the read-only stream accepts nothing.
   */
  lemma FileEnds(f: Frame)
    requires Possible(f) && MagicOf(f.header.magic) == Some(SendFile)
    ensures !Continues(f)
  {
    if f.fileOpen {
      assert |f.payload| >= |UpToNul(f.payload)| > 0;
    }
  }

  /** Passes that all left continue_receive_loop set hold no FILE pass. */
  lemma NoFileContinues(frames: seq<Frame>)
    requires AllPossible(frames) && AllContinue(frames)
    ensures forall i :: 0 <= i < |frames| ==> MagicOf(frames[i].header.magic) != Some(SendFile)
  {
    EachPossible(frames);
    EachContinues(frames);
    forall i | 0 <= i < |frames| && MagicOf(frames[i].header.magic) == Some(SendFile)
      ensures false
    {
      FileEnds(frames[i]);
    }
  }

  /** _recv_loop of `n` bytes into `buf`, then the NUL receiveLoop writes at index `n`. */
  method RecvTerminated(sock: Socket, buf: array<bv8>, n: nat) returns (ghost payload: seq<bv8>, ok: bool)
    requires n < buf.Length
    modifies sock, buf
    ensures |payload| <= n && (ok <==> |payload| == n)
    ensures buf[..] == Renamed(old(buf[..]), payload, n)
    ensures old(sock.incoming) == payload + sock.incoming && sock.sent == old(sock.sent)
  {
    var status := RecvLoop(sock, buf, n);
    payload := old(sock.incoming)[..|old(sock.incoming)| - |sock.incoming|];
    buf[n] := 0;
    ok := status == Success;
  }

  /** A zero-filled buffer that received `payload` and its terminator holds the C string UpToNul(payload). */
  lemma ZeroFilledHolds(zeros: seq<bv8>, payload: seq<bv8>, n: nat)
    requires |zeros| == n + 1 && |payload| <= n && forall i :: 0 <= i < |zeros| ==> zeros[i] == 0
    ensures 0 in Renamed(zeros, payload, n) && CString(Renamed(zeros, payload, n)) == UpToNul(payload)
  {
    var r := Renamed(zeros, payload, n);
    assert r == payload + r[|payload|..];
    assert r[|payload|] == 0;
    CStringPadded(payload, r[|payload|..]);
  }

  /** The NAME case: _recv_loop into the chat's name buffer, then the NUL at index `n`. */
  method ReceiveName(chat: Chat, n: nat) returns (ghost payload: seq<bv8>, ok: bool)
    requires chat.Named() && n < NameCapacity
    modifies chat.name, chat.sock
    ensures chat.Named()
    ensures |payload| <= n && (ok <==> |payload| == n)
    ensures chat.name[..] == Renamed(old(chat.name[..]), payload, n)
    ensures old(chat.sock.incoming) == payload + chat.sock.incoming && chat.sock.sent == old(chat.sock.sent)
  {
    payload, ok := RecvTerminated(chat.sock, chat.name, n);
  }

  /**
    The MESSAGE case: _recv_loop of `len` bytes into a fresh buffer, its
    terminator, and the message prepended to the incoming history whatever
    the read's outcome. The unread part of the buffer is taken to be zero.
   */
  method ReceiveMessage(chat: Chat, id: bv16, len: nat, time: int) returns (ghost payload: seq<bv8>, ok: bool)
    requires chat.Named()
    modifies chat`Repr, chat.messagesIn, chat.sock
    ensures chat.Named() && old(chat.Repr) <= chat.Repr && fresh(chat.Repr - old(chat.Repr))
    ensures |payload| <= len && (ok <==> |payload| == len)
    ensures chat.messagesIn.Contents == [Message(id, time, UpToNul(payload))] + old(chat.messagesIn.Contents)
    ensures old(chat.sock.incoming) == payload + chat.sock.incoming && chat.sock.sent == old(chat.sock.sent)
  {
    var text := new bv8[len + 1](_ => 0);
    ghost var zeros := text[..];
    payload, ok := RecvTerminated(chat.sock, text, len);
    ZeroFilledHolds(zeros, payload, len);
    chat.Record(In, Message(id, time, CString(text[..])));
  }

  /** The DELETE case: _delete_message_from_list on the incoming history, its outcome ignored. */
  method ReceiveDelete(chat: Chat, id: bv16)
    requires chat.Named()
    modifies chat.messagesIn.Repr
    ensures chat.Named()
    ensures chat.messagesIn.Contents == WithoutFirstId(old(chat.messagesIn.Contents), id)
  {
    var ignored := DeleteMessageFromList(chat.messagesIn, id);
    DeletedIsWithoutFirstId(old(chat.messagesIn.Contents), chat.messagesIn.Contents, id);
  }

  /**
    The FILE case: _recv_loop of the `n`-byte file name into a fresh buffer,
    fopen of that name with mode "rb" (attempted even when the read failed),
    and, when it returned a stream, the copy of `n` body bytes: recv(2) of
    at most 1024 bytes at a time (0 or less ends the copy) and fwrite of
    what came (a short write ends it too). The pass never succeeds: the
    name fopen accepts is not empty, so the copy has bytes to write, and
    the stream writes none of them.
   */
  method ReceiveFile(sock: Socket, disk: Disk, n: nat)
    returns (ghost payload: seq<bv8>, fileOpen: bool, ghost body: seq<bv8>, ghost written: seq<bv8>, ok: bool)
    modifies sock
    ensures |payload| <= n && |body| <= n && |body| <= ChunkSize && written == []
    ensures fileOpen <==> Opens(disk, UpToNul(payload))
    ensures !fileOpen ==> body == []
    ensures ok <==> |payload| == n && fileOpen && |body| == n && written == body
    ensures !ok
    ensures old(sock.incoming) == payload + body + sock.incoming && sock.sent == old(sock.sent)
  {
    var name;
    name, payload, ok := ReceiveFileName(sock, n);
    fileOpen := Opens(disk, name);
    body, written := [], [];
    if !fileOpen {
      ok := false;
      return;
    }
    assert |payload| >= |name| > 0;
    body, written, ok := CopyBody(sock, n, ok);
  }

  /**
    The name part of the FILE case: `n` bytes into a zero-filled buffer of
    n + 1 bytes, so that the name the file is opened under is the payload up
    to its first NUL.
   */
  method ReceiveFileName(sock: Socket, n: nat) returns (name: CStr, ghost payload: seq<bv8>, ok: bool)
    modifies sock
    ensures |payload| <= n && (ok <==> |payload| == n)
    ensures name == UpToNul(payload)
    ensures old(sock.incoming) == payload + sock.incoming && sock.sent == old(sock.sent)
  {
    var filename := new bv8[n + 1](_ => 0);
    ghost var zeros := filename[..];
    payload, ok := RecvTerminated(sock, filename, n);
    ZeroFilledHolds(zeros, payload, n);
    name := CString(filename[..]);
  }

  /**
    The copy loop of the FILE case, into a stream opened "rb": recv(2) of
    at most 1024 bytes at a time until `n` have come (0 or less ends the
    loop, clearing `ok`), each chunk handed to fwrite (a short write ends
    the loop, clearing `ok`). The ghost results are the bytes taken from the
    socket and the bytes the stream accepted: none, so the loop ends after
    its first chunk, and succeeds only when there was nothing to copy.
   */
  method CopyBody(sock: Socket, n: nat, ok0: bool)
    returns (ghost body: seq<bv8>, ghost written: seq<bv8>, ok: bool)
    modifies sock
    ensures |body| <= n && |body| <= ChunkSize && written == []
    ensures ok <==> ok0 && |body| == n && written == body
    ensures old(sock.incoming) == body + sock.incoming && sock.sent == old(sock.sent)
  {
    body, written := [], [];
    var remaining: nat := n;
    var copying := true;
    var buf := new bv8[ChunkSize];
    while remaining > 0 && copying
      invariant |body| + remaining == n && |body| <= ChunkSize && written == []
      invariant copying ==> body == []
      invariant !copying ==> remaining > 0 || body != []
      invariant old(sock.incoming) == body + sock.incoming && sock.sent == old(sock.sent)
      decreases remaining, copying
    {
      var res := sock.Recv(buf, 0, if remaining < ChunkSize then remaining else ChunkSize);
      if res <= 0 {
        copying := false;
      } else {
        ghost var chunk := buf[..res];
        var count := WriteReadOnly(buf[..res]);
        written := written + chunk[..count];
        body := body + chunk;
        if count < res {
          copying := false;
        }
        remaining := remaining - res;
      }
    }
    ok := ok0 && copying;
  }

  /**
    What one pass did to a chat whose view was `before`: the pass is the
    Frame `f` for header `h` stamped with `time`, its reads could have taken
    what `f` records, its fopen asked `disk`, `cont` is
    continue_receive_loop after it, and the view is now the one `f` makes of
    `before`.
   */
  ghost predicate Passed(chat: Chat, disk: Disk, h: Header, time: int, f: Frame, cont: bool, before: View)
    reads chat, chat.Repr, chat.sock
  {
    && chat.Named()
    && f.header == h && f.time == time && Possible(f) && OpensOn(f, disk) && (cont <==> Continues(f))
    && |before.name| == NameCapacity
    && ViewOf(chat) == Apply(before, f)
  }

  /** A NAME pass. */
  method HandleName(chat: Chat, disk: Disk, h: Header, time: int) returns (ghost f: Frame, cont: bool)
    requires chat.Named() && MagicOf(h.magic) == Some(IndicateName)
    modifies chat.name, chat.sock
    ensures chat.Repr == old(chat.Repr)
    ensures Passed(chat, disk, h, time, f, cont, old(ViewOf(chat)))
    ensures old(chat.sock.incoming) == f.payload + f.body + chat.sock.incoming
  {
    ghost var payload;
    payload, cont := ReceiveName(chat, h.shortInt as nat);
    f := Frame(h, payload, false, [], [], time);
  }

  /** A MESSAGE pass. */
  method HandleMessage(chat: Chat, disk: Disk, h: Header, time: int) returns (ghost f: Frame, cont: bool)
    requires chat.Named() && MagicOf(h.magic) == Some(SendMessage)
    modifies chat`Repr, chat.messagesIn, chat.sock
    ensures old(chat.Repr) <= chat.Repr && fresh(chat.Repr - old(chat.Repr))
    ensures Passed(chat, disk, h, time, f, cont, old(ViewOf(chat)))
    ensures old(chat.sock.incoming) == f.payload + f.body + chat.sock.incoming
  {
    ghost var payload;
    payload, cont := ReceiveMessage(chat, h.shortInt, h.longInt as nat, time);
    f := Frame(h, payload, false, [], [], time);
  }

  /** A DELETE pass. */
  method HandleDelete(chat: Chat, disk: Disk, h: Header, time: int) returns (ghost f: Frame, cont: bool)
    requires chat.Named() && MagicOf(h.magic) == Some(DeleteMessage)
    modifies chat.messagesIn.Repr
    ensures chat.Repr == old(chat.Repr)
    ensures Passed(chat, disk, h, time, f, cont, old(ViewOf(chat)))
    ensures old(chat.sock.incoming) == f.payload + f.body + chat.sock.incoming
  {
    ReceiveDelete(chat, h.shortInt);
    cont := true;
    f := Frame(h, [], false, [], [], time);
  }

  /** A FILE pass. */
  method HandleFile(chat: Chat, disk: Disk, h: Header, time: int) returns (ghost f: Frame, cont: bool)
    requires chat.Named() && MagicOf(h.magic) == Some(SendFile)
    modifies chat.sock
    ensures chat.Repr == old(chat.Repr)
    ensures Passed(chat, disk, h, time, f, cont, old(ViewOf(chat)))
    ensures old(chat.sock.incoming) == f.payload + f.body + chat.sock.incoming
  {
    ghost var payload, body, written;
    var fileOpen;
    payload, fileOpen, body, written, cont := ReceiveFile(chat.sock, disk, h.shortInt as nat);
    f := Frame(h, payload, fileOpen, body, written, time);
  }

  /**
    One pass of receiveLoop after a complete header `h`: the switch on the
    magic byte, where END stops the loop and an unknown magic is skipped.
   */
  method HandleFrame(chat: Chat, disk: Disk, h: Header, time: int) returns (ghost f: Frame, cont: bool)
    requires chat.Named()
    modifies chat`Repr, chat.name, chat.messagesIn, chat.messagesIn.Repr, chat.sock
    ensures old(chat.Repr) <= chat.Repr && fresh(chat.Repr - old(chat.Repr))
    ensures Passed(chat, disk, h, time, f, cont, old(ViewOf(chat)))
    ensures old(chat.sock.incoming) == f.payload + f.body + chat.sock.incoming
  {
    match MagicOf(h.magic) {
      case Some(IndicateName) =>
        f, cont := HandleName(chat, disk, h, time);
      case Some(SendMessage) =>
        f, cont := HandleMessage(chat, disk, h, time);
      case Some(DeleteMessage) =>
        f, cont := HandleDelete(chat, disk, h, time);
      case Some(SendFile) =>
        f, cont := HandleFile(chat, disk, h, time);
      case Some(EndChat) =>
        cont := false;
        f := Frame(h, [], false, [], [], time);
      case None =>
        cont := true;
        f := Frame(h, [], false, [], [], time);
    }
  }

  /** One more pass adds its bytes at the end of the stream the passes consumed. */
  lemma Snoc(frames: seq<Frame>, f: Frame)
    ensures (frames + [f])[..|frames|] == frames
    ensures Wire(frames + [f]) == Wire(frames) + Consumed(f)
  {
    assert (frames + [f])[..|frames|] == frames;
  }

  /** One pass leaves the chat's outgoing counter and history, and what it has sent, as they were. */
  lemma ApplyKeeps(v: View, f: Frame)
    requires |v.name| == NameCapacity && Possible(f)
    ensures Apply(v, f).outCounter == v.outCounter && Apply(v, f).messagesOut == v.messagesOut
    ensures Apply(v, f).sent == v.sent
  {
  }

  /** The passes leave the chat's outgoing counter and history, and what it has sent, as they were. */
  lemma {:induction false} ApplyAllKeepsOut(v: View, frames: seq<Frame>)
    requires |v.name| == NameCapacity && AllPossible(frames)
    ensures ApplyAll(v, frames).outCounter == v.outCounter && ApplyAll(v, frames).messagesOut == v.messagesOut
    ensures ApplyAll(v, frames).sent == v.sent
  {
    if frames != [] {
      var front, f := frames[..|frames| - 1], frames[|frames| - 1];
      ApplyAllKeepsOut(v, front);
      ApplyKeeps(ApplyAll(v, front), f);
    }
  }

  /** One more pass applies its effect to the view the earlier passes left. */
  lemma ApplySnoc(v: View, frames: seq<Frame>, f: Frame)
    requires |v.name| == NameCapacity && Possible(f) && AllPossible(frames)
    ensures AllPossible(frames + [f])
    ensures ApplyAll(v, frames + [f]) == Apply(ApplyAll(v, frames), f)
  {
    assert (frames + [f])[..|frames|] == frames;
  }

  /** One more pass that asked `disk` keeps AllOpensOn. */
  lemma OpensSnoc(frames: seq<Frame>, f: Frame, disk: Disk)
    requires AllOpensOn(frames, disk) && OpensOn(f, disk)
    ensures AllOpensOn(frames + [f], disk)
  {
    assert (frames + [f])[..|frames|] == frames;
  }

  /** The stream after one more pass, when the pass read the header `h` and then what `f` records. */
  lemma WireStep(stream: seq<bv8>, frames: seq<Frame>, before: seq<bv8>, h: Header, after: seq<bv8>, f: Frame)
    requires stream == Wire(frames) + before
    requires before == Encode(h) + f.payload + f.body + after && f.header == h
    ensures stream == Wire(frames + [f]) + after
  {
    Snoc(frames, f);
  }

  /**
    The header read at the top of each pass: _recv_loop of 7 bytes into the
    struct, then ntohs and ntohl of its fields. The ghost result is what the
    read took from the stream; on success those are the header's encoding.
    Only the chat's stream changes.
   */
  method ReadHeader(chat: Chat, host: Host) returns (h: Header, ok: bool, ghost consumed: seq<bv8>)
    requires chat.Named()
    modifies chat.sock
    ensures ok ==> consumed == Encode(h)
    ensures !ok ==> |consumed| < HeaderSize
    ensures old(chat.sock.incoming) == consumed + chat.sock.incoming
    ensures chat.Named() && chat.Repr == old(chat.Repr) && ViewOf(chat) == old(ViewOf(chat))
  {
    var hdr := new bv8[HeaderSize];
    var status := RecvLoop(chat.sock, hdr, HeaderSize);
    consumed := old(chat.sock.incoming)[..|old(chat.sock.incoming)| - |chat.sock.incoming|];
    ok := status == Success;
    h := ParseHeader(host, hdr[..]);
    if ok {
      EncodeDecode(hdr[..]);
      assert hdr[..] == consumed;
    }
  }

  /**
    One pass of receiveLoop: the header read and, when it succeeds, the
    switch on the header. When the read fails, nothing but the stream
    changed.
   */
  method Pass(chat: Chat, host: Host, disk: Disk, time: int)
    returns (ghost f: Frame, ghost consumed: seq<bv8>, ok: bool, cont: bool)
    requires chat.Named()
    modifies chat.Repr, chat.sock
    ensures chat.Named() && old(chat.Repr) <= chat.Repr && fresh(chat.Repr - old(chat.Repr))
    ensures ok ==> Passed(chat, disk, f.header, time, f, cont, old(ViewOf(chat))) && consumed == Encode(f.header)
    ensures ok ==> old(chat.sock.incoming) == consumed + f.payload + f.body + chat.sock.incoming
    ensures !ok ==> |consumed| < HeaderSize && old(chat.sock.incoming) == consumed + chat.sock.incoming
    ensures !ok ==> ViewOf(chat) == old(ViewOf(chat))
  {
    var h;
    h, ok, consumed := ReadHeader(chat, host);
    f, cont := Frame(h, [], false, [], [], time), false;
    if ok {
      ghost var middle := chat.sock.incoming;
      f, cont := HandleFrame(chat, disk, h, time);
      assert middle == f.payload + f.body + chat.sock.incoming;
      assert consumed + middle == consumed + f.payload + f.body + chat.sock.incoming;
    }
  }

  /**
    receiveLoop on `chat`, on a machine of byte order `host`, opening files
    on `disk`; clock(i) is what time(NULL) returns during pass i. The ghost
    results are the passes made, what a failed header read took from the
    stream after them, and whether such a failure ended the loop. Otherwise
    the last pass cleared continue_receive_loop, and every pass before the
    last left it set (so none of those was a FILE pass).
   */
  method ReceiveOn(chat: Chat, host: Host, disk: Disk, clock: nat -> int)
    returns (ghost frames: seq<Frame>, ghost tail: seq<bv8>, ghost headerFailed: bool)
    requires chat.Named()
    modifies chat.Repr, chat.sock
    ensures chat.Named() && old(chat.Repr) <= chat.Repr && fresh(chat.Repr - old(chat.Repr))
    ensures AllPossible(frames) && Stamped(frames, clock)
    ensures AllOpensOn(frames, disk)
    ensures headerFailed ==>
              && |tail| < HeaderSize && AllContinue(frames)
              && old(chat.sock.incoming) == Wire(frames) + tail + chat.sock.incoming
    ensures !headerFailed ==>
              && tail == [] && frames != [] && AllContinue(frames[..|frames| - 1]) && !Continues(frames[|frames| - 1])
              && old(chat.sock.incoming) == Wire(frames) + chat.sock.incoming
    ensures ViewOf(chat) == ApplyAll(old(ViewOf(chat)), frames)
    ensures chat.sock.sent == old(chat.sock.sent)
  {
    frames, tail, headerFailed := [], [], false;
    ghost var stream0, view0, repr0 := chat.sock.incoming, ViewOf(chat), chat.Repr;
    var go := true;
    var passes: nat := 0;
    while go
      invariant chat.Named() && repr0 <= chat.Repr && fresh(chat.Repr - repr0)
      invariant passes == |frames|
      invariant AllPossible(frames) && Stamped(frames, clock)
      invariant AllOpensOn(frames, disk)
      invariant tail == [] && !headerFailed
      invariant go ==> AllContinue(frames)
      invariant !go ==> frames != [] && AllContinue(frames[..|frames| - 1]) && !Continues(frames[|frames| - 1])
      invariant stream0 == Wire(frames) + chat.sock.incoming
      invariant |view0.name| == NameCapacity && ViewOf(chat) == ApplyAll(view0, frames)
      decreases go, |chat.sock.incoming|
    {
      ghost var f, consumed;
      ghost var before := chat.sock.incoming;
      var ok, cont;
      f, consumed, ok, cont := Pass(chat, host, disk, clock(passes));
      if !ok {
        tail, headerFailed := consumed, true;
        assert Wire(frames) + tail + chat.sock.incoming == Wire(frames) + (tail + chat.sock.incoming);
        break;
      }
      WireStep(stream0, frames, before, f.header, chat.sock.incoming, f);
      ApplySnoc(view0, frames, f);
      OpensSnoc(frames, f, disk);
      frames := frames + [f];
      go := cont;
      passes := passes + 1;
    }
    ApplyAllKeepsOut(view0, frames);
  }

  /**
    receiveLoop with the arguments a receiving thread is started with: the
    registry and one of its chats. The passes are those of ReceiveOn, on the
    registry's own byte order; the
    registry keeps its invariant, its chats and its visible chat, and its
    footprint grows only by what the passes allocated for the chat.
   */
  method ReceiveLoop(chatter: Chatter, chat: Chat, disk: Disk, clock: nat -> int)
    returns (ghost frames: seq<Frame>, ghost tail: seq<bv8>, ghost headerFailed: bool)
    requires chatter.Valid() && chat in chatter.chats.Contents
    modifies chatter`Repr, chat.Repr, chat.sock
    ensures chatter.Valid() && chat in chatter.chats.Contents
    ensures chatter.chats.Contents == old(chatter.chats.Contents) && chatter.visibleChat == old(chatter.visibleChat)
    ensures old(chatter.Repr) <= chatter.Repr && fresh(chatter.Repr - old(chatter.Repr))
    ensures AllPossible(frames) && Stamped(frames, clock)
    ensures AllOpensOn(frames, disk)
    ensures headerFailed ==>
              && |tail| < HeaderSize && AllContinue(frames)
              && old(chat.sock.incoming) == Wire(frames) + tail + chat.sock.incoming
    ensures !headerFailed ==>
              && tail == [] && frames != [] && AllContinue(frames[..|frames| - 1]) && !Continues(frames[|frames| - 1])
              && old(chat.sock.incoming) == Wire(frames) + chat.sock.incoming
    ensures ViewOf(chat) == ApplyAll(old(ViewOf(chat)), frames)
    ensures chat.sock.sent == old(chat.sock.sent)
  {
    label start:
    frames, tail, headerFailed := ReceiveOn(chat, chatter.host, disk, clock);
    chatter.Repr := chatter.Repr + chat.Repr;
    chatter.OwnedAfterChatChange@start(chat);
  }
}
