/**
  The C library string functions the chat engine relies on (strlen, strncmp,
  strcpy), stated over byte buffers. A buffer is a `seq<bv8>` (or an array when
  the engine writes into it); the C string it holds is the run of bytes before
  its first NUL.
 */
module CStrings {

  /** The bytes of a C string, without its terminator: no NUL inside. */
  type CStr = s: seq<bv8> | 0 !in s

  /** strlen: the index of the first NUL of `buf`. */
  function StrLen(buf: seq<bv8>): (n: nat)
    requires 0 in buf
    ensures n < |buf| && buf[n] == 0 && 0 !in buf[..n]
  {
    if buf[0] == 0 then 0
    else
      assert 0 in buf[1..] by { assert buf == [buf[0]] + buf[1..]; }
      var m := StrLen(buf[1..]);
      assert buf[..m + 1] == [buf[0]] + buf[1..][..m];
      1 + m
  }

  /** The C string a buffer holds: its bytes before the first NUL. */
  function CString(buf: seq<bv8>): (s: CStr)
    requires 0 in buf
    ensures s + [0] <= buf
  {
    buf[..StrLen(buf)]
  }

  /** A buffer that starts with `s` and a NUL holds exactly the C string `s`. */
  lemma CStringOfTerminated(s: CStr, buf: seq<bv8>)
    requires s + [0] <= buf
    ensures 0 in buf && CString(buf) == s
  {
    assert buf[|s|] == 0;
  }

  /** The C string held by a buffer that holds `p` and then a NUL: the bytes of `p` before its first NUL. */
  function UpToNul(p: seq<bv8>): (s: CStr)
    ensures s <= p
    ensures 0 !in p ==> s == p
    ensures |s| < |p| ==> p[|s|] == 0
  {
    assert (p + [0])[|p|] == 0;
    var s := CString(p + [0]);
    assert (p + [0])[..|p|] == p;
    if 0 !in p then CStringOfTerminated(p, p + [0]); s else s
  }

  /**
    A buffer that holds `p` and then bytes starting with a NUL (receiveLoop's
    receive buffers: the bytes read, the rest of the buffer, the terminator
    it writes) holds the C string UpToNul(p).
   */
  lemma {:induction false} CStringPadded(p: seq<bv8>, rest: seq<bv8>)
    requires rest != [] && rest[0] == 0
    ensures 0 in p + rest && CString(p + rest) == UpToNul(p)
  {
    assert (p + rest)[|p|] == 0;
    assert (p + [0])[|p|] == 0;
    if p != [] {
      if p[0] == 0 {
        assert CString(p + rest) == [] && CString(p + [0]) == [];
      } else {
        CStringPadded(p[1..], rest);
        assert (p + rest)[1..] == p[1..] + rest;
        assert (p + [0])[1..] == p[1..] + [0];
        CStringCons(p + rest);
        CStringCons(p + [0]);
      }
    }
  }

  /** Peeling the first byte of a buffer whose C string is not empty. */
  lemma CStringCons(buf: seq<bv8>)
    requires 0 in buf && buf[0] != 0
    ensures 0 in buf[1..]
    ensures CString(buf) == [buf[0]] + CString(buf[1..])
  {
    assert buf == [buf[0]] + buf[1..];
  }

  /**
    strncmp(a, b, n) == 0: the first `n` bytes agree, or both strings end at
    the same NUL before that. The requires say that the comparison reads only
    inside the buffers: each has `n` bytes or a NUL where the reading stops.
   */
  predicate StrNEqual(a: seq<bv8>, b: seq<bv8>, n: nat)
    requires n <= |a| || 0 in a
    requires n <= |b| || 0 in b
    decreases n
  {
    n == 0 ||
    (a[0] == b[0] &&
     (a[0] == 0 ||
      (assert 0 in a ==> 0 in a[1..] by { assert a == [a[0]] + a[1..]; }
       assert 0 in b ==> 0 in b[1..] by { assert b == [b[0]] + b[1..]; }
       StrNEqual(a[1..], b[1..], n - 1))))
  }

  /**
    strncmp(q, buf, strlen(q)) == 0 exactly when the C string `q` is a prefix
    of the C string held by `buf`: the comparison getChatFromName uses is a
    prefix match.
   */
  lemma {:induction false} StrNEqualIsPrefix(q: CStr, buf: seq<bv8>)
    requires 0 in buf
    ensures StrNEqual(q + [0], buf, |q|) <==> q <= CString(buf)
  {
    if q != [] {
      assert (q + [0])[0] == q[0] && (q + [0])[1..] == q[1..] + [0];
      if buf[0] == 0 {
        assert CString(buf) == [];
      } else {
        CStringCons(buf);
        StrNEqualIsPrefix(q[1..], buf[1..]);
        assert q == [q[0]] + q[1..];
      }
    }
  }

  /** strcpy: copies `src` and its terminator to the start of `dst`. */
  method StrCpy(dst: array<bv8>, src: CStr)
    requires |src| < dst.Length
    modifies dst
    ensures dst[..|src| + 1] == src + [0]
    ensures dst[|src| + 1..] == old(dst[|src| + 1..])
    ensures 0 in dst[..] && CString(dst[..]) == src
  {
    forall i | 0 <= i < |src| {
      dst[i] := src[i];
    }
    dst[|src|] := 0;
    assert dst[..|src| + 1] == src + [0];
    CStringOfTerminated(src, dst[..]);
  }
}
