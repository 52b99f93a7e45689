/**
  The chat registry and the send-side session operations of chatter.c, each
  modelled as one atomic step on a Chatter object (the program takes
  chatter->lock around each of them).

  A Chatter owns its list of chats, its own name buffer and, through each
  registered chat, that chat's name buffer and message histories; `Repr` is
  that footprint. The chats' sockets stay outside every footprint: sending
  or receiving on a socket never disturbs the registry.
 */
module Session {
  import opened Options
  import opened CStrings
  import opened Lists
  import opened Protocol
  import opened Net
  import opened Messages
  import opened Files

  /** The bytes of "Anonymous", the default name of the user and of a new peer. */
  const Anonymous: CStr := [0x41, 0x6E, 0x6F, 0x6E, 0x79, 0x6D, 0x6F, 0x75, 0x73]

  /** struct Chat: one conversation, over one connected socket. */
  class Chat {
    /** The peer's name, a 65536-byte buffer holding a C string. */
    const name: array<bv8>
    const sock: Socket
    /** The id the next outgoing message gets; uint16_t, so it wraps. */
    var outCounter: bv16
    const messagesIn: LinkedList<Message>
    const messagesOut: LinkedList<Message>
    ghost var Repr: set<object>

    ghost predicate Valid()
      reads this`Repr, Repr - {this}
    {
      && this in Repr && name in Repr && messagesIn in Repr && messagesOut in Repr
      && messagesIn.Repr <= Repr && messagesOut.Repr <= Repr
      && this !in messagesIn.Repr && this !in messagesOut.Repr
      && name !in messagesIn.Repr && name !in messagesOut.Repr
      && messagesIn.Repr !! messagesOut.Repr
      && messagesIn.Valid() && messagesOut.Valid()
      && name.Length == NameCapacity
      && sock !in Repr
    }

    /** A valid chat whose name buffer holds a C string. */
    ghost predicate Named()
      reads this`Repr, Repr - {this}
    {
      Valid() && 0 in name[..]
    }

    /** A chat none of whose objects changed keeps its name, counter and histories. */
    twostate lemma Kept()
      requires old(Valid()) && unchanged(this) && unchanged(old(Repr))
      ensures Repr == old(Repr) && name[..] == old(name[..]) && outCounter == old(outCounter)
      ensures messagesIn.Contents == old(messagesIn.Contents) && messagesOut.Contents == old(messagesOut.Contents)
      ensures Valid() && (old(Named()) ==> Named())
    {
    }

    /**
      _init_chat: a chat on `sock` with empty histories and its counter at 0.
      The name buffer is allocated but not set.
     */
    constructor (sock: Socket)
      ensures Valid() && fresh(Repr) && this.sock == sock
      ensures outCounter == 0 && messagesIn.Contents == [] && messagesOut.Contents == []
    {
      this.sock := sock;
      messagesIn := new LinkedList();
      messagesOut := new LinkedList();
      outCounter := 0;
      name := new bv8[NameCapacity];
      new;
      Repr := {this, name} + messagesIn.Repr + messagesOut.Repr;
    }

    /** The history of messages in direction `d`. */
    function History(d: Direction): LinkedList<Message> {
      if d == In then messagesIn else messagesOut
    }

    /** LinkedList_addFirst of `m` on the history `d`, keeping the footprint up to date. */
    method Record(d: Direction, m: Message)
      requires Valid()
      modifies this`Repr, History(d)
      ensures Valid() && old(Repr) <= Repr && fresh(Repr - old(Repr))
      ensures History(d).Contents == [m] + old(History(d).Contents)
    {
      History(d).AddFirst(m);
      Repr := Repr + {History(d).head};
    }
  }

  /**
    The text sendFile announces a file with: (Sending file "<filename>").
    It is exactly 17 bytes longer than the name, the size sendFile
    allocates for it besides the name and the terminator.
   */
  function Announcement(filename: CStr): (s: CStr)
    ensures |s| == |filename| + 17 && s[15..15 + |filename|] == filename
  {
    [0x28, 0x53, 0x65, 0x6E, 0x64, 0x69, 0x6E, 0x67, 0x20, 0x66, 0x69, 0x6C, 0x65, 0x20, 0x22] + filename + [0x22, 0x29]
  }

  /** The two histories of a chat: messages received, messages sent. */
  datatype Direction = In | Out

  /** A footprint that grew only by objects allocated since the old state grew by fresh objects. */
  twostate lemma FreshGrowth(before: set<object>, new after: set<object>, new grown: set<object>)
    requires after == before + grown && fresh(grown)
    ensures fresh(after - before)
  {
  }

  /** Step 1 of setupNewChat: _init_chat on `sock`, then strcpy of "Anonymous" into the chat's name. */
  method NewAnonymousChat(sock: Socket) returns (c: Chat)
    ensures fresh(c) && fresh(c.Repr) && c.sock == sock && c.Named() && CString(c.name[..]) == Anonymous
    ensures c.outCounter == 0 && c.messagesIn.Contents == [] && c.messagesOut.Contents == []
  {
    c := new Chat(sock);
    StrCpy(c.name, Anonymous);
  }

  /** The name test of getChatFromName: `q` is a prefix of the chat's name. */
  ghost predicate Matches(q: CStr, c: Chat)
    reads c.name
  {
    0 in c.name[..] && q <= CString(c.name[..])
  }

  /** `i` is the position of the first chat of `cs` that `q` matches. */
  ghost predicate FirstMatch(cs: seq<Chat>, q: CStr, i: int)
    reads set c | c in cs :: c.name
  {
    0 <= i < |cs| && Matches(q, cs[i]) && forall j :: 0 <= j < i ==> !Matches(q, cs[j])
  }

  /** No chat of `cs` matches `q`. */
  ghost predicate NoMatch(cs: seq<Chat>, q: CStr)
    reads set c | c in cs :: c.name
  {
    forall c :: c in cs ==> !Matches(q, c)
  }

  /** The empty name matches the first chat of any registry. */
  lemma EmptyNameMatchesFirst(cs: seq<Chat>)
    requires cs != [] && forall c :: c in cs ==> 0 in c.name[..]
    ensures FirstMatch(cs, [], 0)
  {
    assert 0 in cs[0].name[..];
  }

  /**
    struct Chatter: the state of one running program. Its footprint `Repr`
    holds what it owns, but not the Chatter object itself, so that moving
    the visible chat leaves the registry's invariant untouched.
   */
  class Chatter {
    /** The byte order of the machine the program runs on. */
    const host: Host
    const chats: LinkedList<Chat>
    /** The user's own name, a 65536-byte buffer holding a C string. */
    const myname: array<bv8>
    var visibleChat: Chat?
    ghost var Repr: set<object>

    /** The invariant: the registry is well formed and the visible chat, if any, is registered. */
    ghost predicate Valid()
      reads this, Repr
    {
      Owned() && (visibleChat == null || visibleChat in chats.Contents)
    }

    /**
      The registry is a valid list of distinct chats, all owned, each apart
      from the list's own nodes.
     */
    ghost predicate Owned()
      reads this`Repr, Repr
    {
      && this !in Repr && chats in Repr && myname in Repr
      && chats.Repr <= Repr && myname !in chats.Repr
      && chats.Valid()
      && myname.Length == NameCapacity && 0 in myname[..]
      && Distinct(chats.Contents)
      && ChatsOwned(chats.Contents)
    }

    /**
      The chats of `cs` are owned: each is valid with a terminated name, lies
      inside the footprint away from the user's name buffer, and has its
      socket outside it; their footprints are pairwise disjoint and their
      sockets distinct.
     */
    ghost predicate ChatsOwned(cs: seq<Chat>)
      reads this`Repr, chats`Repr, Repr - chats.Repr
    {
      && (forall c :: c in cs ==>
            && c in Repr && c !in chats.Repr && c.Repr <= Repr && chats.Repr !! c.Repr
            && c.Named() && myname !in c.Repr && c.sock !in Repr)
      && (forall c, d :: c in cs && d in cs && c != d ==> c.Repr !! d.Repr && c.sock != d.sock)
    }

    /** Every part of an owned collection of chats is owned. */
    lemma ChatsOwnedPart(cs: seq<Chat>, ds: seq<Chat>)
      requires ChatsOwned(cs) && forall d :: d in ds ==> d in cs
      ensures ChatsOwned(ds)
    {
    }

    /**
      The registry stays owned when only the objects of one registered chat
      `c` have changed, its footprint has grown by fresh objects only (which
      join the registry's footprint), and it is still a valid named chat.
     */
    twostate lemma OwnedAfterChatChange(c: Chat)
      requires old(Owned()) && c in old(chats.Contents)
      requires unchanged(old(Repr) - old(c.Repr))
      requires old(c.Repr) <= c.Repr && fresh(c.Repr - old(c.Repr))
      requires Repr == old(Repr) + c.Repr
      requires c.Named()
      ensures Owned()
    {
      assert myname in old(Repr) - old(c.Repr);
      assert myname[..] == old(myname[..]);
      forall e | e in chats.Contents && e != c ensures e.Repr == old(e.Repr) && e.Named() {
        assert old(e.Repr) !! old(c.Repr);
      }
    }

    /** Prepending a named chat that owns nothing of the registry, together with a fresh node, keeps the ownership. */
    twostate lemma OwnedAfterAdd(chat: Chat)
      requires old(Owned()) && old(chat.Named())
      requires old(chat.Repr !! Repr && this !in chat.Repr && chats !in chat.Repr)
      requires old(chat.sock !in Repr && chat.sock !in Sockets() && Sockets() !! chat.Repr)
      requires unchanged(old(Repr) - {chats}) && unchanged(old(chat.Repr))
      requires chats.Valid() && chats.Contents == [chat] + old(chats.Contents)
      requires fresh(chats.head) && chats.Repr == old(chats.Repr) + {chats.head}
      requires Repr == old(Repr) + chat.Repr + {chats.head}
      ensures Owned()
    {
      ghost var cs := old(chats.Contents);
      assert myname in old(Repr) - {chats};
      assert myname[..] == old(myname[..]);
      assert chat !in cs;
      forall c | c in cs ensures c.Named() && c.Repr == old(c.Repr) && c.sock != chat.sock && c.sock !in chat.Repr {
        assert old(c.sock in Sockets());
      }
      assert Distinct(chats.Contents) by {
        forall i, j | 0 <= i < j < |chats.Contents| ensures chats.Contents[i] != chats.Contents[j] {
          assert chats.Contents[j] == cs[j - 1];
          if i > 0 { assert chats.Contents[i] == cs[i - 1]; }
        }
      }
    }

    /** The sockets of the registered chats. */
    ghost function Sockets(): set<Socket>
      reads chats
    {
      set c | c in chats.Contents :: c.sock
    }

    /** The chats' sockets lie outside the footprint. */
    lemma SocketsOutside()
      requires Owned()
      ensures Sockets() !! Repr
    {
      forall s | s in Sockets() ensures s !in Repr {
        var c :| c in chats.Contents && c.sock == s;
      }
    }

    /** Changes confined to visibleChat and to objects outside the footprint keep the ownership. */
    twostate lemma OwnedKept()
      requires old(Owned()) && unchanged(this`Repr) && unchanged(old(Repr))
      ensures Owned()
    {
    }

    /** What an operation on the visible chat may change. */
    ghost function VisibleParts(): set<object>
      reads this
    {
      if visibleChat == null then {} else {visibleChat as object, visibleChat.messagesOut, visibleChat.sock}
    }

    /** _init_chatter: no chats, none visible, and the user called "Anonymous". */
    constructor (host: Host)
      ensures Valid() && fresh(Repr) && this.host == host
      ensures chats.Contents == [] && visibleChat == null
      ensures CString(myname[..]) == Anonymous
    {
      this.host := host;
      var buf := new bv8[NameCapacity];
      StrCpy(buf, Anonymous);
      myname := buf;
      chats := new LinkedList();
      visibleChat := null;
      new;
      Repr := {myname} + chats.Repr;
    }

    /**
      getChatFromName: the first chat, in list order, whose name starts with
      `q`, or null when there is none. So the empty name selects the first chat.
     */
    method GetChatFromName(q: CStr) returns (chat: Chat?)
      requires Valid()
      ensures chat == null <==> NoMatch(chats.Contents, q)
      ensures chat != null ==> chat in chats.Contents && FirstMatch(chats.Contents, q, IndexOf(chats.Contents, chat))
    {
      chat := null;
      var node := chats.head;
      ghost var k := 0;
      while node != null
        invariant 0 <= k <= |chats.Nodes|
        invariant node == if k < |chats.Nodes| then chats.Nodes[k] else null
        invariant forall j :: 0 <= j < k ==> !Matches(q, chats.Contents[j])
        decreases |chats.Nodes| - k
      {
        var c := node.data;
        assert c == chats.Contents[k] && c.Named();
        StrNEqualIsPrefix(q, c.name[..]);
        if StrNEqual(q + [0], c.name[..], |q|) {
          chat := c;
          assert Matches(q, chat);
          assert IndexOf(chats.Contents, chat) == k;
          return;
        }
        node := node.next;
        k := k + 1;
      }
      assert chats.Contents[..k] == chats.Contents;
    }

    /**
      The LinkedList_remove step of removeChat: `chat` leaves the registry,
      the other chats keep their order, and the registry stays owned.
     */
    method Unlink(chat: Chat)
      requires Owned()
      modifies chats.Repr
      ensures Owned() && Repr == old(Repr)
      ensures chats.Contents == Erase(old(chats.Contents), chat) && chat !in chats.Contents
      ensures forall c :: c in old(chats.Contents) && c != chat ==> c in chats.Contents
    {
      ghost var before := chats.Contents;
      var removed := chats.Remove(chat);
      EraseDistinct(before, chat);
      forall c | c in chats.Contents ensures c in before {
        EraseMembers(before, c, chat);
      }
      forall c | c in before && c != chat ensures c in chats.Contents {
        EraseMembers(before, c, chat);
      }
      ChatsOwnedPart(before, chats.Contents);
    }

    /**
      removeChat: unlinks `chat` from the registry, keeping the other chats
      in order. When it was the visible chat, the visible chat becomes the
      new first chat, or null when none is left; otherwise it stays. Then
      the chat's descriptor is closed. (Its socket lies outside the
      registry's footprint, as every registered chat's does.)
     */
    method RemoveChat(chat: Chat)
      requires Valid() && chat.sock !in Repr
      modifies this`visibleChat, chats.Repr, chat.sock
      ensures Valid() && Repr == old(Repr)
      ensures chats.Contents == Erase(old(chats.Contents), chat) && chat !in chats.Contents
      ensures old(visibleChat) == chat ==>
                visibleChat == if chats.Contents == [] then null else chats.Contents[0]
      ensures old(visibleChat) != chat ==> visibleChat == old(visibleChat)
      ensures chat.sock.closed && chat.sock.sent == old(chat.sock.sent) && chat.sock.incoming == old(chat.sock.incoming)
    {
      Unlist(chat);
      chat.sock.Close();
    }

    /** The steps of removeChat before close(2): LinkedList_remove, then the bounce of the visible chat. */
    method Unlist(chat: Chat)
      requires Valid()
      modifies this`visibleChat, chats.Repr
      ensures Valid() && Repr == old(Repr)
      ensures chats.Contents == Erase(old(chats.Contents), chat) && chat !in chats.Contents
      ensures old(visibleChat) == chat ==>
                visibleChat == if chats.Contents == [] then null else chats.Contents[0]
      ensures old(visibleChat) != chat ==> visibleChat == old(visibleChat)
    {
      Unlink(chat);
      if visibleChat == chat {
        visibleChat := if chats.head == null then null else chats.head.data;
      }
    }

    /**
      switchTo: makes the first chat that `q` selects the visible one; when
      none matches, returns CHAT_DOESNT_EXIST and changes nothing.
     */
    method SwitchTo(q: CStr) returns (status: Status)
      requires Valid()
      modifies this`visibleChat
      ensures Valid()
      ensures status == Success || status == ChatDoesntExist
      ensures status == ChatDoesntExist <==> NoMatch(chats.Contents, q)
      ensures status == ChatDoesntExist ==> visibleChat == old(visibleChat)
      ensures status == Success ==>
                && visibleChat != null && visibleChat in chats.Contents
                && FirstMatch(chats.Contents, q, IndexOf(chats.Contents, visibleChat))
    {
      status := Success;
      var chat := GetChatFromName(q);
      if chat == null {
        status := ChatDoesntExist;
      } else {
        visibleChat := chat;
        OwnedKept();
      }
    }

    /**
      _send_loop on a socket outside the footprint: the frame is delivered in
      the sense of Delivered, and the registry is left as it was.
     */
    method SendFrame(sock: Socket, frame: seq<bv8>) returns (status: Status)
      requires Valid() && sock !in Repr
      modifies sock
      ensures Valid()
      ensures Delivered(old(sock.sent), sock.sent, frame, status)
      ensures old(sock.closed) ==> sock.sent == old(sock.sent)
      ensures sock.incoming == old(sock.incoming) && sock.recvScript == old(sock.recvScript)
      ensures sock.closed == old(sock.closed)
    {
      status := SendLoop(sock, frame);
    }

    /**
      The senders' pattern on a socket outside the footprint: header + body
      delivered in the sense of Delivered, and the registry as it was.
     */
    method SendHeaderAndBody(sock: Socket, header: seq<bv8>, body: seq<bv8>) returns (status: Status)
      requires Valid() && sock !in Repr
      modifies sock
      ensures Valid()
      ensures Delivered(old(sock.sent), sock.sent, header + body, status)
      ensures sock.incoming == old(sock.incoming) && sock.recvScript == old(sock.recvScript)
    {
      status := SendInTwo(sock, header, body);
    }

    /**
      closeChat: removes the first chat that `q` selects (as removeChat
      does), then sends an END frame on that chat's socket and returns the
      outcome of that send. When none matches: CHAT_DOESNT_EXIST, no change.
      As written, removeChat has already closed the descriptor, so the send
      fails: the peer receives nothing and the outcome is FAILURE_GENERIC.
      The ghost result `closed` names the chat that was closed.
     */
    method CloseChat(q: CStr) returns (status: Status, ghost closed: Option<Chat>)
      requires Valid()
      modifies this`visibleChat, chats.Repr, Sockets()
      ensures Valid() && Repr == old(Repr)
      ensures closed == None <==> old(NoMatch(chats.Contents, q))
      ensures closed == None ==>
                && status == ChatDoesntExist
                && chats.Contents == old(chats.Contents) && visibleChat == old(visibleChat)
      ensures closed.Some? ==>
                && closed.value in old(chats.Contents)
                && old(FirstMatch(chats.Contents, q, IndexOf(chats.Contents, closed.value)))
                && chats.Contents == Erase(old(chats.Contents), closed.value)
                && closed.value !in chats.Contents
                && (old(visibleChat) == closed.value ==>
                      visibleChat == if chats.Contents == [] then null else chats.Contents[0])
                && (old(visibleChat) != closed.value ==> visibleChat == old(visibleChat))
                && closed.value.sock.closed && status == FailureGeneric
                && closed.value.sock.sent == old(closed.value.sock.sent)
      ensures forall c :: c in old(chats.Contents) && Some(c) != closed ==> unchanged(c.sock)
    {
      closed := None;
      var selected := GetChatFromName(q);
      if selected != null {
        closed := Some(selected);
        status := EndChatWith(selected);
      } else {
        status := ChatDoesntExist;
      }
    }

    /**
      The part of closeChat after the lookup: `chat` leaves the registry as
      removeChat takes it out, which closes its descriptor; the END frame
      then sent on it never goes out, and the outcome is FAILURE_GENERIC.
     */
    method EndChatWith(chat: Chat) returns (status: Status)
      requires Valid() && chat in chats.Contents
      modifies this`visibleChat, chats.Repr, chat.sock
      ensures Valid() && Repr == old(Repr)
      ensures chats.Contents == Erase(old(chats.Contents), chat) && chat !in chats.Contents
      ensures old(visibleChat) == chat ==>
                visibleChat == if chats.Contents == [] then null else chats.Contents[0]
      ensures old(visibleChat) != chat ==> visibleChat == old(visibleChat)
      ensures chat.sock.closed && status == FailureGeneric && chat.sock.sent == old(chat.sock.sent)
      ensures forall c :: c in old(chats.Contents) ==> c.sock != chat.sock ==> unchanged(c.sock)
    {
      SocketsOutside();
      RemoveChat(chat);
      var header := StructBytes(host, EndChat.Code(), 0, 0);
      assert header == BuildHeader(host, Header(EndChat.Code(), 0, 0));
      BuildHeaderIsNetworkOrder(host, Header(EndChat.Code(), 0, 0));
      ghost var s0 := chat.sock.sent;
      status := SendFrame(chat.sock, header);
      assert |EndFrame()| == HeaderSize;
      assert chat.sock.sent == s0 != s0 + EndFrame();
    }

    /**
      Adds `m` to the history `d` of a registered chat; the registry stays
      valid and its footprint grows by fresh objects only.
     */
    method Record(c: Chat, d: Direction, m: Message)
      requires Valid() && c in chats.Contents
      modifies this`Repr, c`Repr, c.History(d)
      ensures Valid() && old(Repr) <= Repr && fresh(Repr - old(Repr))
      ensures c.History(d).Contents == [m] + old(c.History(d).Contents)
    {
      ghost var before := c.Repr;
      c.Record(d, m);
      Repr := Repr + c.Repr;
      OwnedAfterChatChange(c);
      FreshGrowth(old(Repr), Repr, c.Repr - before);
    }

    /** The `outCounter++` of sendMessage: the current id, and the counter moved on modulo 2^16. */
    method TakeId(c: Chat) returns (id: bv16)
      requires Valid() && c in chats.Contents
      modifies c`outCounter
      ensures Valid()
      ensures id == old(c.outCounter) && c.outCounter == id + 1
    {
      id := c.outCounter;
      c.outCounter := c.outCounter + 1;
      OwnedAfterChatChange(c);
    }

    /** _delete_message_from_list on the history `d` of a registered chat. */
    method DeleteFromHistory(c: Chat, d: Direction, id: bv16) returns (status: Status)
      requires Valid() && c in chats.Contents
      modifies c.History(d).Repr
      ensures Valid()
      ensures DeletedFirstWithId(old(c.History(d).Contents), c.History(d).Contents, id)
      ensures status == if HasId(old(c.History(d).Contents), id) then Success else FailureGeneric
    {
      status := DeleteMessageFromList(c.History(d), id);
      OwnedAfterChatChange(c);
    }

    /**
      sendMessage: with no visible chat, FAILURE_GENERIC and no change;
      otherwise what SendMessageOn does on the visible chat.
     */
    method SendMessage(message: CStr, now: int) returns (status: Status)
      requires Valid()
      modifies this`Repr, VisibleParts()
      ensures Valid() && old(Repr) <= Repr && fresh(Repr - old(Repr))
      ensures old(visibleChat) == null ==> status == FailureGeneric && Repr == old(Repr)
      ensures old(visibleChat) != null ==>
                var c := old(visibleChat);
                && c.outCounter == old(c.outCounter) + 1
                && c.messagesOut.Contents == [Message(old(c.outCounter), now, message)] + old(c.messagesOut.Contents)
                && Delivered(old(c.sock.sent), c.sock.sent, MessageFrame(old(c.outCounter), message), status)
                && c.sock.incoming == old(c.sock.incoming)
    {
      if visibleChat == null {
        return FailureGeneric;
      }
      status := SendMessageOn(visibleChat, message, now);
    }

    /**
      sendMessage on the chat `c`: the message takes the chat's next id, is
      prepended to the outgoing history before anything is sent (and stays
      there whatever the sends do), and then the MESSAGE frame goes out.
     */
    method SendMessageOn(c: Chat, message: CStr, now: int) returns (status: Status)
      requires Valid() && c in chats.Contents
      modifies this`Repr, c`Repr, c`outCounter, c.messagesOut, c.sock
      ensures Valid() && old(Repr) <= Repr && fresh(Repr - old(Repr))
      ensures c.outCounter == old(c.outCounter) + 1
      ensures c.messagesOut.Contents == [Message(old(c.outCounter), now, message)] + old(c.messagesOut.Contents)
      ensures Delivered(old(c.sock.sent), c.sock.sent, MessageFrame(old(c.outCounter), message), status)
      ensures c.sock.incoming == old(c.sock.incoming)
    {
      ghost var s0, h0 := c.sock.sent, c.messagesOut.Contents;
      var id := TakeId(c);
      assert c.messagesOut.Contents == h0;
      Record(c, Out, Message(id, now, message));
      assert c.sock.sent == s0 && c.outCounter == id + 1;
      status := SendMessageFrame(c.sock, id, message);
    }

    /**
      The sending half of sendMessage: the header with the id and the length
      cast to 32 bits, then, only if it got through, that many bytes of text.
     */
    method SendMessageFrame(sock: Socket, id: bv16, message: CStr) returns (status: Status)
      requires Valid() && sock !in Repr
      modifies sock
      ensures Valid()
      ensures Delivered(old(sock.sent), sock.sent, MessageFrame(id, message), status)
      ensures sock.incoming == old(sock.incoming)
    {
      var len := Trunc32(|message|);
      var header := StructBytes(host, Magic.SendMessage.Code(), Htons(host, id), Htonl(host, len as bv32));
      MessageFrameSent(host, id, message);
      status := SendHeaderAndBody(sock, header, message[..len]);
    }

    /**
      sendFile: first announces the file with a message on the visible chat
      (as sendMessage does; its outcome is ignored). Then FAILURE_GENERIC
      when stat or fopen fails; otherwise, on the visible chat's socket, the
      SEND_FILE header with the name's length cast to 16 bits and the file's
      size cast to 32 bits, then the name and the file's bytes as
      SendFileFrame sends them. sendFile dereferences the visible chat
      once the file is open, so one must exist then, and the file must be
      smaller than 4 GiB, for the 32-bit count of the bytes still to send.
      The ghost result `announced` is what the peer had received once the
      announcement had been sent.
     */
    method SendFile(filename: CStr, file: FileInfo, now: int) returns (status: Status, ghost announced: seq<bv8>)
      requires Valid()
      requires file.Readable? ==> visibleChat != null && |file.data| < 0x1_0000_0000
      modifies this`Repr, VisibleParts()
      ensures Valid() && old(Repr) <= Repr && fresh(Repr - old(Repr))
      ensures !file.Readable? ==> status == FailureGeneric
      ensures old(visibleChat) != null ==>
                var c := old(visibleChat);
                var id := old(c.outCounter);
                && c.outCounter == id + 1
                && c.messagesOut.Contents == [Message(id, now, Announcement(filename))] + old(c.messagesOut.Contents)
                && old(c.sock.sent) <= announced <= old(c.sock.sent) + MessageFrame(id, Announcement(filename))
                && c.sock.incoming == old(c.sock.incoming)
                && (!file.Readable? ==> c.sock.sent == announced)
                && (file.Readable? ==>
                      FileSent(announced, c.sock.sent, FileHeader(filename, |file.data|),
                               filename[..Trunc16(|filename|)], file.data, file.readable, status))
    {
      if visibleChat == null {
        var ignored := SendMessage(Announcement(filename), now);
        announced := [];
        status := FailureGeneric;
        return;
      }
      status, announced := SendFileOn(visibleChat, filename, file, now);
    }

    /** sendFile on the visible chat `c`: the announcement through sendMessage, then the file when it opens. */
    method SendFileOn(c: Chat, filename: CStr, file: FileInfo, now: int) returns (status: Status, ghost announced: seq<bv8>)
      requires Valid() && c in chats.Contents
      requires file.Readable? ==> |file.data| < 0x1_0000_0000
      modifies this`Repr, c`Repr, c`outCounter, c.messagesOut, c.sock
      ensures Valid() && old(Repr) <= Repr && fresh(Repr - old(Repr))
      ensures !file.Readable? ==> status == FailureGeneric && c.sock.sent == announced
      ensures c.outCounter == old(c.outCounter) + 1
      ensures c.messagesOut.Contents == [Message(old(c.outCounter), now, Announcement(filename))] + old(c.messagesOut.Contents)
      ensures old(c.sock.sent) <= announced <= old(c.sock.sent) + MessageFrame(old(c.outCounter), Announcement(filename))
      ensures c.sock.incoming == old(c.sock.incoming)
      ensures file.Readable? ==>
                FileSent(announced, c.sock.sent, FileHeader(filename, |file.data|),
                         filename[..Trunc16(|filename|)], file.data, file.readable, status)
    {
      var ignored := SendMessageOn(c, Announcement(filename), now);
      announced := c.sock.sent;
      if !file.Readable? {
        status := FailureGeneric;
        return;
      }
      status := SendOpenFile(c, filename, file.data, file.readable);
    }

    /** The part of sendFile after fopen succeeded, on the registered chat `c`. */
    method SendOpenFile(c: Chat, filename: CStr, data: seq<bv8>, readable: nat) returns (status: Status)
      requires Valid() && c in chats.Contents && |data| < 0x1_0000_0000
      modifies c.sock
      ensures Valid()
      ensures FileSent(old(c.sock.sent), c.sock.sent, FileHeader(filename, |data|),
                       filename[..Trunc16(|filename|)], data, readable, status)
      ensures c.sock.incoming == old(c.sock.incoming)
    {
      var fnLength := Trunc16(|filename|);
      var h := Header(Magic.SendFile.Code(), fnLength as bv16, |data| as bv32);
      var header := StructBytes(host, h.magic, Htons(host, h.shortInt), Htonl(host, h.longInt));
      BuildHeaderIsNetworkOrder(host, h);
      SocketsOutside();
      status := SendFileFrame(c.sock, header, filename[..fnLength], data, readable);
    }

    /**
      deleteMessage: removes the first outgoing message with this id locally,
      then sends a DELETE frame regardless; the outcome is that of the send
      alone, the local outcome being overwritten. The visible chat must exist.
     */
    method DeleteMessage(id: bv16) returns (status: Status)
      requires Valid() && visibleChat != null
      modifies visibleChat.messagesOut.Repr, visibleChat.sock
      ensures Valid()
      ensures DeletedFirstWithId(old(visibleChat.messagesOut.Contents), visibleChat.messagesOut.Contents, id)
      ensures Delivered(old(visibleChat.sock.sent), visibleChat.sock.sent, DeleteFrame(id), status)
      ensures visibleChat.sock.incoming == old(visibleChat.sock.incoming)
    {
      var c: Chat := visibleChat;
      status := DeleteFromHistory(c, Out, id);
      var h := Header(Magic.DeleteMessage.Code(), id, 0);
      var header := StructBytes(host, h.magic, Htons(host, h.shortInt), 0);
      BuildHeaderIsNetworkOrder(host, h);
      status := SendFrame(c.sock, header);
    }

    /**
      _declare_name_to_chat: a NAME frame carrying `name`, its length cast to
      16 bits in the header; the name is sent only if the header got through.
     */
    method DeclareName(sock: Socket, name: seq<bv8>) returns (status: Status)
      modifies sock
      ensures Delivered(old(sock.sent), sock.sent, NameFrame(name), status)
      ensures sock.incoming == old(sock.incoming)
    {
      var h := Header(IndicateName.Code(), Trunc16(|name|) as bv16, 0);
      var header := StructBytes(host, h.magic, Htons(host, h.shortInt), 0);
      BuildHeaderIsNetworkOrder(host, h);
      status := SendInTwo(sock, header, name);
    }

    /**
      broadcastMyName: declares the user's name to every chat, in list order.
      The outcomes accumulate as `status || ...`, which short-circuits: once
      a declaration has failed, no later chat is sent anything. The ghost
      result `failedAt` is the position of the chat whose declaration
      failed, or the number of chats when none did.
     */
    method BroadcastMyName() returns (status: Status, ghost failedAt: nat)
      requires Valid()
      modifies Sockets()
      ensures Valid()
      ensures status == Success || status == FailureGeneric
      ensures failedAt <= |chats.Contents|
      ensures status == Success <==> failedAt == |chats.Contents|
      ensures forall i :: 0 <= i < failedAt ==>
                chats.Contents[i].sock.sent == old(chats.Contents[i].sock.sent) + NameFrame(CString(myname[..]))
      ensures failedAt < |chats.Contents| ==>
                var s := chats.Contents[failedAt].sock;
                Delivered(old(s.sent), s.sent, NameFrame(CString(myname[..])), FailureGeneric)
      ensures forall i :: failedAt < i < |chats.Contents| ==>
                chats.Contents[i].sock.sent == old(chats.Contents[i].sock.sent)
      ensures forall c :: c in chats.Contents ==> c.sock.incoming == old(c.sock.incoming)
    {
      var name := myname[..StrLen(myname[..])];
      ghost var cs := chats.Contents;
      SocketsOutside();
      assert forall i, j :: 0 <= i < j < |cs| ==> cs[i].sock != cs[j].sock by {
        forall i, j | 0 <= i < j < |cs| ensures cs[i].sock != cs[j].sock {
          assert cs[i] != cs[j];
        }
      }
      status, failedAt := DeclareToAll(name);
      OwnedKept();
    }

    /**
      The loop of broadcastMyName over the list nodes, for the name `name`:
      STATUS_SUCCESS until a declaration fails, and nothing sent after that.
     */
    method DeclareToAll(name: seq<bv8>) returns (status: Status, ghost failedAt: nat)
      requires chats.Valid() && Sockets() !! chats.Repr
      requires forall i, j :: 0 <= i < j < |chats.Contents| ==> chats.Contents[i].sock != chats.Contents[j].sock
      modifies Sockets()
      ensures status == Success || status == FailureGeneric
      ensures failedAt <= |chats.Contents|
      ensures status == Success <==> failedAt == |chats.Contents|
      ensures forall i :: 0 <= i < failedAt ==>
                chats.Contents[i].sock.sent == old(chats.Contents[i].sock.sent) + NameFrame(name)
      ensures failedAt < |chats.Contents| ==>
                var s := chats.Contents[failedAt].sock;
                Delivered(old(s.sent), s.sent, NameFrame(name), FailureGeneric)
      ensures forall i :: failedAt < i < |chats.Contents| ==>
                chats.Contents[i].sock.sent == old(chats.Contents[i].sock.sent)
      ensures forall c :: c in chats.Contents ==> c.sock.incoming == old(c.sock.incoming)
    {
      ghost var cs := chats.Contents;
      ghost var nodes := chats.Nodes;
      ghost var frame := NameFrame(name);
      status := Success;
      failedAt := 0;
      var node := chats.head;
      ghost var k := 0;
      while node != null
        invariant chats.Contents == cs && chats.Nodes == nodes
        invariant 0 <= k <= |nodes|
        invariant node == if k < |nodes| then nodes[k] else null
        invariant status == Success || status == FailureGeneric
        invariant status == Success ==> failedAt == k
        invariant status != Success ==> failedAt < k
        invariant forall i :: 0 <= i < failedAt ==> cs[i].sock.sent == old(cs[i].sock.sent) + frame
        invariant failedAt < k ==> Delivered(old(cs[failedAt].sock.sent), cs[failedAt].sock.sent, frame, FailureGeneric)
        invariant forall i :: failedAt < i < |cs| || k <= i < |cs| ==> cs[i].sock.sent == old(cs[i].sock.sent)
        invariant forall i :: 0 <= i < |cs| ==> cs[i].sock.incoming == old(cs[i].sock.incoming)
        decreases |nodes| - k
      {
        var chat := node.data;
        assert chat == cs[k];
        if status == Success {
          var declared := DeclareName(chat.sock, name);
          if declared == Success {
            failedAt := k + 1;
          } else {
            status := FailureGeneric;
          }
        }
        node := node.next;
        k := k + 1;
      }
    }
  
    /**
      LinkedList_addFirst of a new, named chat on chats, with the footprint
      grown by the chat's objects and the new node.
     */
    method Register(chat: Chat)
      requires Valid() && chat.Named()
      requires chat.Repr !! Repr && this !in chat.Repr && chats !in chat.Repr
      requires chat.sock !in Repr && chat.sock !in Sockets() && Sockets() !! chat.Repr
      modifies this`Repr, chats
      ensures Valid() && Repr == old(Repr) + chat.Repr + {chats.head} && fresh(chats.head)
      ensures chats.Contents == [chat] + old(chats.Contents)
      ensures chats.head != null && (chats.head.next == null <==> old(chats.Contents) == [])
    {
      chats.AddFirst(chat);
      Repr := Repr + chat.Repr + {chats.head};
      OwnedAfterAdd(chat);
    }

    /**
      LinkedList_removeFirst on chats, as setupNewChat undoes a registration:
      the chats are the old tail and the footprint keeps its objects.
     */
    method Unregister()
      requires Valid() && chats.Contents != [] && (visibleChat == null || visibleChat in chats.Contents[1..])
      modifies chats
      ensures Valid() && Repr == old(Repr)
      ensures chats.Contents == old(chats.Contents)[1..]
    {
      ghost var before := chats.Contents;
      var removed := chats.RemoveFirst();
      ChatsOwnedPart(before, chats.Contents);
      assert Distinct(chats.Contents) by {
        forall i, j | 0 <= i < j < |chats.Contents| ensures chats.Contents[i] != chats.Contents[j] {
          assert chats.Contents[i] == before[i + 1] && chats.Contents[j] == before[j + 1];
        }
      }
    }

    /**
      setupNewChat on a connected socket: a new chat named "Anonymous", with
      its counter at 0 and empty histories, is prepended to the chats and is
      told the user's name (whatever that send's outcome). The receive thread
      is started after that; `threadCreated` is whether pthread_create
      succeeded. If it did not, the chat is taken off the list again and the
      result is ERR_THREADCREATE; otherwise, when it is the only chat, it
      becomes the visible one.
     */
    method SetupNewChat(sock: Socket, threadCreated: bool) returns (status: Status, ghost chat: Chat)
      requires Valid() && sock !in Repr && sock !in Sockets()
      modifies this`Repr, this`visibleChat, chats, sock
      ensures Valid() && old(Repr) <= Repr && fresh(Repr - old(Repr))
      ensures fresh(chat) && fresh(chat.Repr) && chat.sock == sock && chat.Named() && CString(chat.name[..]) == Anonymous
      ensures chat.outCounter == 0 && chat.messagesIn.Contents == [] && chat.messagesOut.Contents == []
      ensures threadCreated ==>
                && status == Success
                && chats.Contents == [chat] + old(chats.Contents)
                && visibleChat == if old(chats.Contents) == [] then chat else old(visibleChat)
      ensures !threadCreated ==>
                && status == ErrThreadCreate
                && chats.Contents == old(chats.Contents) && visibleChat == old(visibleChat)
      ensures old(sock.sent) <= sock.sent <= old(sock.sent) + NameFrame(CString(old(myname[..])))
      ensures sock.incoming == old(sock.incoming)
    {
      var c := AddAndDeclare(sock);
      chat := c;
      ghost var grown := c.Repr + {chats.head};
      assert Repr == old(Repr) + grown && fresh(grown);
      label added:
      status := StartReceiving(c, threadCreated);
      c.Kept@added();
      FreshGrowth(old(Repr), Repr, grown);
    }

    /**
      Step 1 of setupNewChat: a new chat named "Anonymous" on `sock`, added
      to the front of the list by LinkedList_addFirst, then
      _declare_name_to_chat of the user's name on it, whose outcome is ignored.
     */
    method AddAndDeclare(sock: Socket) returns (chat: Chat)
      requires Valid() && sock !in Repr && sock !in Sockets()
      modifies this`Repr, chats, sock
      ensures Valid() && Repr == old(Repr) + chat.Repr + {chats.head} && fresh(chat.Repr) && fresh(chats.head)
      ensures chats.Contents == [chat] + old(chats.Contents) && visibleChat == old(visibleChat)
      ensures chats.head != null && (chats.head.next == null <==> old(chats.Contents) == [])
      ensures fresh(chat) && chat.sock == sock && chat.Named() && CString(chat.name[..]) == Anonymous
      ensures chat.outCounter == 0 && chat.messagesIn.Contents == [] && chat.messagesOut.Contents == []
      ensures old(sock.sent) <= sock.sent <= old(sock.sent) + NameFrame(CString(old(myname[..])))
      ensures sock.incoming == old(sock.incoming)
    {
      chat := NewAnonymousChat(sock);
      label created:
      ghost var nameBefore := myname[..];
      Register(chat);
      label registered:
      var name := myname[..StrLen(myname[..])];
      assert name == CString(nameBefore);
      var declared := DeclareName(sock, name);
      OwnedKept@registered();
      chat.Kept@created();
    }

    /**
      Step 2 of setupNewChat, once `chat` heads the chats: on a failed
      pthread_create, LinkedList_removeFirst and ERR_THREADCREATE; otherwise
      the chat becomes visible when it is the only one.
     */
    method StartReceiving(chat: Chat, threadCreated: bool) returns (status: Status)
      requires Valid() && chats.Contents != [] && chats.Contents[0] == chat
      requires visibleChat == null || visibleChat in chats.Contents[1..]
      requires chats.head != null && (chats.head.next == null <==> |chats.Contents| == 1)
      modifies this`visibleChat, chats
      ensures Valid() && Repr == old(Repr)
      ensures threadCreated ==>
                && status == Success && chats.Contents == old(chats.Contents)
                && visibleChat == if |chats.Contents| == 1 then chat else old(visibleChat)
      ensures !threadCreated ==>
                && status == ErrThreadCreate
                && chats.Contents == old(chats.Contents)[1..] && visibleChat == old(visibleChat)
    {
      status := Success;
      if !threadCreated {
        Unregister();
        status := ErrThreadCreate;
      } else if chats.head.next == null {
        visibleChat := chat;
        OwnedKept();
      }
    }
  }
}
