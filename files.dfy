/**
  The file transfers of chatter.c, apart from the registry: the way sendFile
  puts a file on the wire (the SEND_FILE header, the file name, then the
  file's bytes through a 1024-byte buffer), and the file system as both
  sides see it. The file system is not modelled beyond what the program
  observes of it: what stat and fopen report, the bytes fread delivers and
  whether it flags an error, and how many bytes fwrite accepts.
 */
module Files {
  import opened CStrings
  import opened Protocol
  import opened Net

  /** The size of the buffer sendFile reads the file into. */
  const ChunkSize: nat := 1024

  /**
    What sendFile finds at the path it is given: stat fails; stat succeeds
    but fopen fails; or the file opens, holding `data`. The reads of an open
    file fail (fread returns short with ferror set) as soon as they would go
    past its first `readable` bytes.
   */
  datatype FileInfo =
    | Missing
    | Unopenable
    | Readable(data: seq<bv8>, readable: nat)

  /** The number of bytes an fread of ChunkSize bytes at `pos` asks the file for. */
  function Wanted(data: seq<bv8>, pos: nat): (n: nat)
    requires pos <= |data|
    ensures n <= ChunkSize && pos + n <= |data|
    ensures (n == 0) <==> (pos == |data|)
  {
    if |data| - pos < ChunkSize then |data| - pos else ChunkSize
  }

  /**
    fread(buf, 1, 1024, file) at file position `pos`: the bytes wanted, or,
    when they reach past the readable part, the readable ones only with the
    error flag set.
   */
  method Fread(buf: array<bv8>, data: seq<bv8>, pos: nat, readable: nat) returns (n: nat, error: bool)
    requires pos <= |data| && buf.Length == ChunkSize
    modifies buf
    ensures error <==> pos + Wanted(data, pos) > readable
    ensures n == if !error then Wanted(data, pos) else if pos < readable then readable - pos else 0
    ensures buf[..n] == data[pos..pos + n]
  {
    n := Wanted(data, pos);
    error := pos + n > readable;
    if error {
      n := if pos < readable then readable - pos else 0;
    }
    forall i | 0 <= i < n {
      buf[i] := data[pos + i];
    }
    assert buf[..n] == data[pos..pos + n];
  }

  /**
    One step of the chunk loop of sendFile: a send(2) of the `held` bytes
    at the front of the buffer; when it delivers some, the unsent rest is
    moved to the front (the memmove).
   */
  method SendBuffered(sock: Socket, buf: array<bv8>, held: nat) returns (n: int)
    requires 0 < held <= buf.Length
    modifies sock, buf
    ensures n == -1 || 0 < n <= held
    ensures n == -1 ==> sock.sent == old(sock.sent)
    ensures n != -1 ==> sock.sent == old(sock.sent) + old(buf[..held])[..n] && buf[..held - n] == old(buf[n..held])
    ensures sock.incoming == old(sock.incoming) && sock.recvScript == old(sock.recvScript)
  {
    n := sock.Send(buf[..held]);
    if n != -1 && held - n > 0 {
      forall i | 0 <= i < held - n {
        buf[i] := buf[i + n];
      }
    }
  }

  /**
    The chunk loop of sendFile: as long as bytes of the file remain unsent,
    refill the buffer when it is empty (an fread that is short and flags an
    error ends the loop), send what the buffer holds with one send(2) (a -1
    ends the loop), and move the unsent rest of the buffer to its front.
    The bytes that reached the peer are a prefix of the file, never more
    than its readable part; the loop succeeds exactly when that prefix is
    all of the file.
   */
  method SendChunks(sock: Socket, data: seq<bv8>, readable: nat) returns (ok: bool, ghost sentBytes: nat)
    modifies sock
    ensures sentBytes <= |data| && sentBytes <= readable
    ensures sock.sent == old(sock.sent) + data[..sentBytes]
    ensures ok <==> sentBytes == |data|
    ensures sock.incoming == old(sock.incoming) && sock.recvScript == old(sock.recvScript)
  {
    var buf := new bv8[ChunkSize];
    var remaining: nat := |data|;
    var inBuffer: nat := 0;
    var readPos: nat := 0;
    sentBytes := 0;
    ok := true;
    while remaining > 0
      invariant sentBytes + remaining == |data|
      invariant readPos == sentBytes + inBuffer <= |data| && readPos <= readable
      invariant inBuffer <= ChunkSize
      invariant buf[..inBuffer] == data[sentBytes..readPos]
      invariant sock.sent == old(sock.sent) + data[..sentBytes]
      invariant sock.incoming == old(sock.incoming) && sock.recvScript == old(sock.recvScript)
      invariant ok
      decreases remaining
    {
      if inBuffer == 0 {
        var error;
        inBuffer, error := Fread(buf, data, readPos, readable);
        if inBuffer < ChunkSize && error {
          ok := false;
          break;
        }
        readPos := readPos + inBuffer;
      }
      ghost var window := buf[..inBuffer];
      var n := SendBuffered(sock, buf, inBuffer);
      if n == -1 {
        ok := false;
        break;
      }
      assert window[..n] == data[sentBytes..sentBytes + n];
      assert data[..sentBytes + n] == data[..sentBytes] + data[sentBytes..sentBytes + n];
      assert buf[..inBuffer - n] == data[sentBytes + n..readPos];
      inBuffer := inBuffer - n;
      remaining := remaining - n;
      sentBytes := sentBytes + n;
    }
  }

  /**
    What sendFile delivers after `before`, once the file is open: the
    header; only if the header got through, the file name, and then the
    file's bytes whatever became of the name, each sent until a send fails.
    The outcome is STATUS_SUCCESS exactly when all three went out whole, and
    then the whole file was readable.
   */
  ghost predicate FileSent(before: seq<bv8>, after: seq<bv8>, header: seq<bv8>, name: seq<bv8>,
                           data: seq<bv8>, readable: nat, status: Status)
  {
    && (status == Success || status == FailureGeneric)
    && (|after| < |before| + |header| ==> before <= after && after < before + header && status == FailureGeneric)
    && (|after| >= |before| + |header| ==>
          exists i, j :: 0 <= i <= |name| && 0 <= j <= |data| && j <= readable
            && after == before + header + name[..i] + data[..j]
            && (status == Success <==> i == |name| && j == |data|))
  }

  /** The wire part of sendFile for an open file whose header is `header` and whose name is `name`. */
  method SendFileFrame(sock: Socket, header: seq<bv8>, name: seq<bv8>, data: seq<bv8>, readable: nat)
    returns (status: Status)
    modifies sock
    ensures FileSent(old(sock.sent), sock.sent, header, name, data, readable, status)
    ensures sock.incoming == old(sock.incoming)
  {
    status := SendLoop(sock, header);
    if status == Success {
      ghost var s1 := sock.sent;
      status := SendLoop(sock, name);
      ghost var s2 := sock.sent;
      var ok, j := SendChunks(sock, data, readable);
      if !ok {
        status := FailureGeneric;
      }
      var i := |s2| - |s1|;
      assert s2 == s1 + name[..i];
      assert sock.sent == old(sock.sent) + header + name[..i] + data[..j];
    }
  }

  /**
    The file system as fopen(name, "rb") in the FILE case of receiveLoop
    sees it: the paths it can open for reading. The stream it opens cannot
    be written to, and nothing in the file system changes.
   */
  datatype Disk = Disk(readable: set<CStr>)

  /** fopen(name, "rb") returns a stream: the path names a readable file; the empty path never does (ENOENT). */
  predicate Opens(disk: Disk, name: CStr) {
    name != [] && name in disk.readable
  }

  /** fwrite of `src` to a stream opened with mode "rb": the stream is not open for writing, so fwrite fails and writes nothing. */
  function WriteReadOnly(src: seq<bv8>): nat {
    0
  }
}
