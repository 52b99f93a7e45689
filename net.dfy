/**
  The stream socket under a chat, and the two transfer loops of chatter.c
  (_send_loop and _recv_loop) that turn partial transfers into one outcome.

  A Socket stands for one connected TCP endpoint as the program sees it:
  `sent` is what the peer has received from us, in order; `incoming` is what
  the peer sends us before it closes, not yet read; `closed` is whether our
  descriptor has been closed, after which send(2) and recv(2) on it fail
  (EBADF). For an open descriptor the operating system's
  choices are fixed in advance by two scripts: the i-th send (or recv) call
  transfers at most sendScript[i] (or recvScript[i]) bytes when that entry is
  positive, and fails when it is not or when the script is used up. So each
  call moves an arbitrary positive chunk or fails, as send(2) and recv(2) do.
 */
module Net {
  import opened Protocol

  class Socket {
    var sent: seq<bv8>
    var incoming: seq<bv8>
    var sendScript: seq<int>
    var recvScript: seq<int>
    var closed: bool

    constructor (incoming: seq<bv8>, sendScript: seq<int>, recvScript: seq<int>)
      ensures this.sent == [] && this.incoming == incoming
      ensures this.sendScript == sendScript && this.recvScript == recvScript
      ensures !closed
    {
      closed := false;
      this.sent := [];
      this.incoming := incoming;
      this.sendScript := sendScript;
      this.recvScript := recvScript;
    }

    /** close(2) of the descriptor: nothing more can be sent or received on it. */
    method Close()
      modifies this
      ensures closed
      ensures sent == old(sent) && incoming == old(incoming)
      ensures sendScript == old(sendScript) && recvScript == old(recvScript)
    {
      closed := true;
    }

    /**
      send(2) of the bytes `src`: -1, or the positive number of leading bytes
      delivered; always -1 on a closed descriptor.
     */
    method Send(src: seq<bv8>) returns (n: int)
      requires |src| > 0
      modifies this
      ensures n == -1 || 0 < n <= |src|
      ensures old(closed) ==> n == -1
      ensures sent == if n == -1 then old(sent) else old(sent) + src[..n]
      ensures incoming == old(incoming) && recvScript == old(recvScript) && closed == old(closed)
    {
      if closed {
        return -1;
      }
      if sendScript == [] || sendScript[0] <= 0 {
        n := -1;
      } else {
        n := if sendScript[0] < |src| then sendScript[0] else |src|;
        sent := sent + src[..n];
      }
      if sendScript != [] {
        sendScript := sendScript[1..];
      }
    }

    /**
      recv(2) of at most `len` bytes into dst[off..]: the positive number of
      bytes read, 0 when the peer has closed (nothing left to read), or -1,
      which is what a closed descriptor always gives.
     */
    method Recv(dst: array<bv8>, off: nat, len: nat) returns (n: int)
      requires len > 0 && off + len <= dst.Length
      modifies this, dst
      ensures -1 <= n <= len && n <= |old(incoming)|
      ensures old(closed) ==> n == -1
      ensures n > 0 ==> incoming == old(incoming)[n..] && dst[off..off + n] == old(incoming)[..n]
      ensures n <= 0 ==> incoming == old(incoming)
      ensures forall i :: 0 <= i < dst.Length && !(off <= i < off + (if n > 0 then n else 0)) ==>
                dst[i] == old(dst[i])
      ensures sent == old(sent) && sendScript == old(sendScript) && closed == old(closed)
    {
      if closed {
        return -1;
      }
      if recvScript == [] || recvScript[0] < 0 {
        n := -1;
      } else if recvScript[0] == 0 || incoming == [] {
        n := 0;
      } else {
        n := recvScript[0];
        if len < n { n := len; }
        if |incoming| < n { n := |incoming|; }
        forall i | 0 <= i < n {
          dst[off + i] := incoming[i];
        }
        incoming := incoming[n..];
      }
      if recvScript != [] {
        recvScript := recvScript[1..];
      }
    }
  }

  /**
    _send_loop: sends all of `src`, chunk after chunk, until a send fails.
    The bytes delivered are always a prefix of `src`, and the outcome is
    STATUS_SUCCESS exactly when that prefix is all of it. On a closed
    descriptor nothing is delivered.
   */
  method SendLoop(sock: Socket, src: seq<bv8>) returns (status: Status)
    modifies sock
    ensures status == Success || status == FailureGeneric
    ensures old(sock.sent) <= sock.sent <= old(sock.sent) + src
    ensures status == Success <==> sock.sent == old(sock.sent) + src
    ensures old(sock.closed) ==> sock.sent == old(sock.sent)
    ensures sock.incoming == old(sock.incoming) && sock.recvScript == old(sock.recvScript)
    ensures sock.closed == old(sock.closed)
  {
    status := Success;
    var off: nat := 0;
    var len: nat := |src|;
    while len > 0
      invariant off + len == |src|
      invariant sock.sent == old(sock.sent) + src[..off]
      invariant sock.incoming == old(sock.incoming) && sock.recvScript == old(sock.recvScript)
      invariant sock.closed == old(sock.closed) && (sock.closed ==> off == 0)
      invariant status == Success
      decreases len
    {
      var sentBytes := sock.Send(src[off..]);
      if sentBytes == -1 {
        status := FailureGeneric;
        break;
      }
      assert src[off..][..sentBytes] == src[off..off + sentBytes];
      assert src[..off + sentBytes] == src[..off] + src[off..off + sentBytes];
      off := off + sentBytes;
      len := len - sentBytes;
    }
    assert status == Success ==> src[..off] == src;
  }

  /**
    _recv_loop: reads exactly `len` bytes into dst[0..len], chunk after chunk,
    until a recv returns 0 or less. The bytes consumed from the stream are
    written, in order, to the start of `dst`, nothing else of `dst` changes,
    and the outcome is STATUS_SUCCESS exactly when all `len` bytes arrived.
   */
  method RecvLoop(sock: Socket, dst: array<bv8>, len: nat) returns (status: Status)
    requires len <= dst.Length
    modifies sock, dst
    ensures status == Success || status == FailureGeneric
    ensures |sock.incoming| <= |old(sock.incoming)|
    ensures var k := |old(sock.incoming)| - |sock.incoming|;
      && k <= len
      && sock.incoming == old(sock.incoming)[k..]
      && dst[..k] == old(sock.incoming)[..k]
      && dst[k..] == old(dst[k..])
      && (status == Success <==> k == len)
    ensures sock.sent == old(sock.sent) && sock.sendScript == old(sock.sendScript)
    ensures sock.closed == old(sock.closed)
  {
    status := Success;
    var off: nat := 0;
    var remaining: nat := len;
    while remaining > 0
      invariant off + remaining == len
      invariant off <= |old(sock.incoming)|
      invariant sock.incoming == old(sock.incoming)[off..]
      invariant dst[..off] == old(sock.incoming)[..off]
      invariant dst[off..] == old(dst[off..])
      invariant sock.sent == old(sock.sent) && sock.sendScript == old(sock.sendScript)
      invariant sock.closed == old(sock.closed)
      invariant status == Success
      decreases remaining
    {
      ghost var before := dst[..];
      ghost var stream := sock.incoming;
      var res := sock.Recv(dst, off, remaining);
      if res <= 0 {
        status := FailureGeneric;
        break;
      }
      assert dst[..off] == before[..off];
      assert dst[..off + res] == dst[..off] + dst[off..off + res];
      assert old(sock.incoming)[..off + res] == old(sock.incoming)[..off] + stream[..res];
      off := off + res;
      remaining := remaining - res;
    }
  }

  /**
    One framed transfer as the senders of chatter.c see it: the bytes that
    reached the peer are `before` followed by a prefix of `frame`, and the
    outcome is STATUS_SUCCESS exactly when that prefix is the whole frame.
   */
  ghost predicate Delivered(before: seq<bv8>, after: seq<bv8>, frame: seq<bv8>, status: Status) {
    && before <= after <= before + frame
    && (status == Success || status == FailureGeneric)
    && (status == Success <==> after == before + frame)
  }

  /**
    The senders' pattern "send the header; only if that succeeded, send the
    body" delivers the frame header + body in the sense of Delivered.
   */
  lemma DeliveredInTwo(s0: seq<bv8>, s1: seq<bv8>, s2: seq<bv8>, header: seq<bv8>, body: seq<bv8>,
                       st1: Status, st2: Status)
    requires Delivered(s0, s1, header, st1)
    requires st1 == Success ==> Delivered(s1, s2, body, st2)
    requires st1 != Success ==> s2 == s1 && st2 == st1
    ensures Delivered(s0, s2, header + body, st2)
  {
    assert s0 + header + body == s0 + (header + body);
    if st1 == Success {
      assert s1 + body == s0 + (header + body);
      assert s0 <= s1 + body[..|s2| - |s1|] by {
        assert s2 == s1 + body[..|s2| - |s1|];
      }
    } else {
      assert |s1| < |s0 + header|;
      assert s1 <= s0 + (header + body) by {
        assert (s0 + header) <= s0 + (header + body);
      }
    }
  }

  /**
    The senders' pattern "send the header; only if that succeeded, send the
    body", each part by _send_loop: together they deliver header + body.
   */
  method SendInTwo(sock: Socket, header: seq<bv8>, body: seq<bv8>) returns (status: Status)
    modifies sock
    ensures Delivered(old(sock.sent), sock.sent, header + body, status)
    ensures old(sock.closed) ==> sock.sent == old(sock.sent)
    ensures sock.incoming == old(sock.incoming) && sock.recvScript == old(sock.recvScript)
    ensures sock.closed == old(sock.closed)
  {
    status := SendLoop(sock, header);
    ghost var s1, st1 := sock.sent, status;
    if status == Success {
      status := SendLoop(sock, body);
    }
    DeliveredInTwo(old(sock.sent), s1, sock.sent, header, body, st1, status);
  }
}
