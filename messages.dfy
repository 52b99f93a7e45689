/**
  The message histories of a chat (chatter.h:52-56) and the deletion of a
  message by id (_delete_message_from_list). Message ids are 16-bit, so they
  range over 0..65535.
 */
module Messages {
  import opened Lists
  import opened Protocol

  /**
    struct Message. `text` is the byte content of the malloc'ed text, without
    the terminator the C code appends; `timestamp` is the value time(NULL)
    gave when the message was recorded.
   */
  datatype Message = Message(id: bv16, timestamp: int, text: seq<bv8>)

  /** Some message of `s` has id `id`. */
  ghost predicate HasId(s: seq<Message>, id: bv16) {
    exists i :: 0 <= i < |s| && s[i].id == id
  }

  /** `i` is the position of the first message of `s` with id `id`. */
  ghost predicate FirstWithId(s: seq<Message>, id: bv16, i: int) {
    0 <= i < |s| && s[i].id == id && forall j :: 0 <= j < i ==> s[j].id != id
  }

  /**
    `after` is `before` without its first message of id `id`, the others kept
    in order; when no message has that id, `after` is `before`.
   */
  ghost predicate DeletedFirstWithId(before: seq<Message>, after: seq<Message>, id: bv16) {
    && (!HasId(before, id) ==> after == before)
    && (forall i :: FirstWithId(before, id, i) ==> after == before[..i] + before[i + 1..])
  }

  /** Every history that holds the id has exactly one first position for it. */
  lemma {:induction false} FirstWithIdExists(s: seq<Message>, id: bv16)
    requires HasId(s, id)
    ensures exists i :: FirstWithId(s, id, i)
  {
    if s[0].id != id {
      var t := s[1..];
      assert HasId(t, id) by {
        var i :| 0 <= i < |s| && s[i].id == id;
        assert t[i - 1] == s[i];
      }
      FirstWithIdExists(t, id);
      var i :| FirstWithId(t, id, i);
      assert FirstWithId(s, id, i + 1) by {
        forall j | 0 <= j < i + 1 ensures s[j].id != id {
          if j > 0 { assert s[j] == t[j - 1]; }
        }
      }
    } else {
      assert FirstWithId(s, id, 0);
    }
  }

  /** The history `s` without its first message of id `id`. */
  function WithoutFirstId(s: seq<Message>, id: bv16): seq<Message> {
    if s == [] then []
    else if s[0].id == id then s[1..]
    else [s[0]] + WithoutFirstId(s[1..], id)
  }

  /** WithoutFirstId deletes the first message with the id, and nothing when none has it. */
  lemma WithoutFirstIdDeletes(s: seq<Message>, id: bv16)
    ensures DeletedFirstWithId(s, WithoutFirstId(s, id), id)
  {
    if !HasId(s, id) {
      WithoutFirstIdMissing(s, id);
    }
    forall i | FirstWithId(s, id, i) ensures WithoutFirstId(s, id) == s[..i] + s[i + 1..] {
      WithoutFirstIdAt(s, id, i);
    }
  }

  /** WithoutFirstId removes the message at the first position of the id. */
  lemma {:induction false} WithoutFirstIdAt(s: seq<Message>, id: bv16, i: int)
    requires FirstWithId(s, id, i)
    ensures WithoutFirstId(s, id) == s[..i] + s[i + 1..]
  {
    if i > 0 {
      var t := s[1..];
      assert FirstWithId(t, id, i - 1) by {
        forall j | 0 <= j < i - 1 ensures t[j].id != id {
          assert t[j] == s[j + 1];
        }
      }
      WithoutFirstIdAt(t, id, i - 1);
      assert s[..i] == [s[0]] + t[..i - 1];
      assert s[i + 1..] == t[i..];
    }
  }

  /** WithoutFirstId keeps a history in which no message has the id. */
  lemma {:induction false} WithoutFirstIdMissing(s: seq<Message>, id: bv16)
    requires !HasId(s, id)
    ensures WithoutFirstId(s, id) == s
  {
    if s != [] {
      var t := s[1..];
      assert !HasId(t, id) by {
        forall j | 0 <= j < |t| ensures t[j].id != id {
          assert t[j] == s[j + 1];
        }
      }
      WithoutFirstIdMissing(t, id);
      assert s == [s[0]] + t;
    }
  }

  /** The deletion relation determines its result: it is always WithoutFirstId. */
  lemma DeletedIsWithoutFirstId(before: seq<Message>, after: seq<Message>, id: bv16)
    requires DeletedFirstWithId(before, after, id)
    ensures after == WithoutFirstId(before, id)
  {
    WithoutFirstIdDeletes(before, id);
    if HasId(before, id) {
      FirstWithIdExists(before, id);
      var i :| FirstWithId(before, id, i);
    }
  }

  /**
    _delete_message_from_list: walks the list for the first message with id
    `id`; if there is one, unlinks it (LinkedList_remove on that message) and
    returns STATUS_SUCCESS, otherwise returns FAILURE_GENERIC.
   */
  method DeleteMessageFromList(list: LinkedList<Message>, id: bv16) returns (status: Status)
    requires list.Valid()
    modifies list.Repr
    ensures list.Valid() && list.Repr == old(list.Repr)
    ensures DeletedFirstWithId(old(list.Contents), list.Contents, id)
    ensures status == (if HasId(old(list.Contents), id) then Success else FailureGeneric)
  {
    status := FailureGeneric;
    ghost var s := list.Contents;
    var node := list.head;
    ghost var k := 0;
    while node != null
      invariant list.Valid() && list.Contents == s && list.Repr == old(list.Repr)
      invariant 0 <= k <= |s|
      invariant node == if k < |s| then list.Nodes[k] else null
      invariant forall j :: 0 <= j < k ==> s[j].id != id
      decreases |s| - k
    {
      var message := node.data;
      if message.id == id {
        assert FirstWithId(s, id, k);
        assert IndexOf(s, message) == k;
        var removed := list.Remove(message);
        EraseAt(s, message);
        status := Success;
        return;
      }
      node := node.next;
      k := k + 1;
    }
    assert !HasId(s, id);
  }
}
