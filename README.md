# Chatter: the session engine, modelled in Dafny

Chatter is a terminal peer-to-peer chat program written in C. Every connected
peer is a *chat* over one TCP socket, and the program keeps all chats in a
singly linked list inside one `struct Chatter`. One chat is *visible*: it is
the one the user's messages, deletions and files go to.

Each chat has its own receive thread running `receiveLoop`. That loop reads
frames from the socket. A frame is a packed 7-byte header (a magic byte, a
16-bit `shortInt`, a 32-bit `longInt`, all in network byte order) followed
by a payload. The loop applies each frame to the chat:
- a NAME frame renames the peer;
- a MESSAGE frame adds an incoming message;
- a DELETE frame removes one;
- a FILE frame is meant to write a file to disk (as written it never does, see below);
- an END frame stops the loop.

This project models the sequential core of that engine:
- the linked list (`linkedlist.c`);
- the header layout and the codes (`chatter.h`);
- the chat registry, the send-side operations and the receive loop (`chatter.c`).

Each operation is modelled as one atomic step, because the program runs it
under the chatter's mutex.

Modules:
- `Options`: the Option type.
- `CStrings`: NUL-terminated strings in byte buffers:
  - `strlen` and the C string that a buffer holds;
  - `strncmp` as a prefix test;
  - `strcpy`.
- `Lists`: `struct LinkedList` as a class over heap nodes. Its ghost `Contents` lists the data in order.
- `Protocol`:
  - the status and magic codes;
  - the header and its big-endian encoding, with the decoding proved inverse to it;
  - `htons`/`htonl` and the struct's in-memory layout, on a little- or big-endian host;
  - the 16- and 32-bit truncating casts;
  - the byte strings each operation sends.
- `Net`:
  - a socket whose `send` and `recv` outcomes are scripted;
  - `_send_loop` and `_recv_loop`.
- `Messages`: deleting the first message with a given id (`_delete_message_from_list`).
- `Files`:
  - the chunked file send of `sendFile`, with `stat`/`fopen`/`fread` outcomes as a parameter;
  - the file system as the receive side's `fopen(name, "rb")` sees it.
- `Session`:
  - `struct Chat` and `struct Chatter` as classes;
  - the registry (`getChatFromName`, `removeChat`, `setupNewChat`);
  - `sendMessage`, `deleteMessage`, `sendFile`, `broadcastMyName`, `closeChat` and `switchTo`.
- `Receiver`: `receiveLoop`. It is specified by a ghost record of one `Frame` per pass of the loop, which gives:
  - the bytes the pass consumed (`Wire`);
  - what the pass could have read (`Possible`);
  - whether the loop went on (`Continues`);
  - what the pass did to the chat (`Apply`, folded by `ApplyAll`).

  Lemmas such as `NamePass` and `FilePass` then say what a pass does on a
  stream that starts with the frame a peer's `_declare_name_to_chat` or
  `sendFile` puts on the wire.

In a few places the code does something other than what its names and
comments suggest. The model follows the code:
- The FILE case of `receiveLoop` takes its body length from the header's
  16-bit `shortInt` (the file name's length), not the `longInt` that
  carries the file size. As written it then reads at most one 1024-byte
  chunk of that body (see the "rb" bullet below).
- `deleteMessage` returns the outcome of the send alone. The outcome of the
  local deletion is overwritten.
- `broadcastMyName` combines outcomes with C's `||`. After the first failure
  it declares the name to no further chat, and it returns 1
  (`FAILURE_GENERIC`).
- `closeChat` removes the chat, and `removeChat` closes its descriptor,
  before END is sent on it. That send fails, so END never reaches the peer
  and `closeChat` returns `FAILURE_GENERIC` for every chat it finds.
- The FILE case of `receiveLoop` opens the file with mode "rb" and then
  writes the body to it. A read-only stream accepts no write, and `fopen`
  refuses the empty name a header with `shortInt` 0 gives. So every FILE
  frame ends the loop, and no file is created or written.
- The `removeChat` call at the end of `receiveLoop` is commented out. The
  loop leaves the registry unchanged.

## Model

| member | source | states |
|---|---|---|
| CStrings.StrLen | chatter.c:143 | strlen: the index of the first NUL, so the bytes before it contain no NUL |
| CStrings.CString | chatter.h:59 | the C string a buffer holds, followed by its terminator, is a prefix of the buffer |
| CStrings.CStringOfTerminated | chatter.c:224 | a buffer that starts with s and then a NUL holds the C string s |
| CStrings.UpToNul | chatter.c:237-240 | the part of a payload before its first NUL: a prefix, all of it when there is no NUL, otherwise followed by a NUL |
| CStrings.CStringPadded | chatter.c:237-240 | a payload followed by zeros holds, as a C string, the payload up to its first NUL |
| CStrings.CStringCons | chatter.c:146 | the C string of a buffer whose first byte is not NUL is that byte followed by the C string of the rest |
| CStrings.StrNEqual | chatter.c:146 | strncmp(a, b, n) == 0: the first n bytes agree, or both strings end at the same NUL before that |
| CStrings.StrNEqualIsPrefix | chatter.c:143-146 | strncmp(q, name, strlen(q)) == 0 holds exactly when q is a prefix of the C string in name |
| CStrings.StrCpy | chatter.c:613 | after strcpy the buffer starts with src and a NUL, the bytes after them are unchanged, and the buffer holds the C string src |
| Lists.IndexOf | linkedlist.c:51-63 | the position of the first node whose data equals x |
| Lists.EraseAbsent | linkedlist.c:49-73 | removing data that is not in the list leaves the list unchanged |
| Lists.EraseAt | linkedlist.c:49-73 | removing data that is in the list drops exactly the first node holding it |
| Lists.EraseMultiset | linkedlist.c:49-73 | removing takes away exactly one occurrence when the data is present, none otherwise, and the length drops accordingly |
| Lists.EraseMembers | linkedlist.c:49-73 | removal keeps every other element and adds none |
| Lists.EraseDistinct | chatter.c:167 | removing a chat from a list without duplicates leaves a list without duplicates that no longer holds it |
| Lists.Node.constructor | linkedlist.c:31-33 | a node holds the given data and successor |
| Lists.LinkedList.constructor | linkedlist.c:9-14 | LinkedList_init: an empty list with a null head |
| Lists.LinkedList.AddFirst | linkedlist.c:29-35 | LinkedList_addFirst: the data is put at the front in a new head node pointing to the old head |
| Lists.LinkedList.RemoveFirst | linkedlist.c:37-47 | LinkedList_removeFirst: NULL on an empty list; otherwise the first element is returned and removed |
| Lists.LinkedList.Remove | linkedlist.c:49-73 | LinkedList_remove: the first node holding the data is unlinked and the data returned; NULL and no change when absent |
| Lists.LinkedList.RemoveNode | linkedlist.c:58-61 | proof step of Remove: once the node before position k points past it, the chain and the contents are the old ones without position k |
| Lists.LinkedList.Free | linkedlist.c:16-27 | LinkedList_free walks the whole chain from the head and releases the nodes in list order |
| Protocol.Status.Code | chatter.h:15-25 | each status has its enum value, and decoding that value gives back the status |
| Protocol.StatusOf | chatter.h:15-25 | an integer names a status exactly when it is between 0 and 8 |
| Protocol.StatusCodesDistinct | chatter.h:15-25 | distinct statuses have distinct codes, and only STATUS_SUCCESS is 0 |
| Protocol.Magic.Code | chatter.h:27-33 | each frame kind has its enum value, and decoding that byte gives back the kind |
| Protocol.MagicOf | chatter.h:27-33 | a magic byte names a frame kind exactly when it is below 5 |
| Protocol.MagicCodesDistinct | chatter.h:27-33 | distinct frame kinds have distinct magic bytes |
| Protocol.Encode | chatter.h:35-39 | the 7 wire bytes of a header: the magic, then shortInt and longInt most significant byte first |
| Protocol.Decode | chatter.h:35-39 | the header 7 wire bytes carry: its magic is the first byte, and its shortInt and longInt, written most significant byte first, are the next 2 and 4 |
| Protocol.Htons | chatter.c:352 | htons/ntohs: the result, stored in host memory, is the value's big-endian bytes, on either host |
| Protocol.Htonl | chatter.c:353 | htonl/ntohl: the result, stored in host memory, is the value's big-endian bytes, on either host |
| Protocol.BuildHeader | chatter.c:350-355 | the struct a sender fills with magic, htons(shortInt) and htonl(longInt), as 7 bytes; BuildHeaderIsNetworkOrder proves it is Encode of the header |
| Protocol.ParseHeader | chatter.c:205-236 | on either host byte order, the header the receive loop takes from the 7 bytes with ntohs/ntohl is the decoding of their big-endian encoding |
| Protocol.NameFrame | chatter.c:506-518 | the bytes _declare_name_to_chat sends: 7 bytes that decode to a NAME header with the length cast to 16 bits, then the whole name |
| Protocol.MessageFrame | chatter.c:341-358 | the bytes sendMessage sends: 7 bytes that decode to a MESSAGE header with the id and the length cast to 32 bits, then that many bytes of the text |
| Protocol.DeleteFrame | chatter.c:380-385 | the bytes deleteMessage sends: 7 bytes that decode to a DELETE header with the id and a zero longInt |
| Protocol.EndFrame | chatter.c:537-542 | the bytes closeChat sends: 7 bytes that decode to an END header with both fields zero |
| Protocol.FileHeader | chatter.c:431-436 | the header sendFile sends: 7 bytes that decode to a FILE header with the name length cast to 16 bits and the size cast to 32 bits |
| Protocol.DecodeEncode | chatter.h:35-39 | decoding an encoded header gives back the header |
| Protocol.EncodeDecode | chatter.h:35-39 | every 7 bytes are the encoding of the header they decode to |
| Protocol.BuildHeaderIsNetworkOrder | chatter.c:350-355 | on either host byte order, the struct filled with htons/htonl is the big-endian encoding of the header |
| Protocol.HeaderRoundTrip | chatter.c:205-236 | a header built on one host is read back unchanged on any other host |
| Protocol.Trunc16 | chatter.c:431 | the uint16_t cast of a length is below 2^16, at most the length, and equal to it when it fits |
| Protocol.Trunc16Of | chatter.c:509 | a length that is a uint16_t value is unchanged by the cast |
| Protocol.Trunc32 | chatter.c:341 | the uint32_t cast of a length is below 2^32, at most the length, and equal to it when it fits |
| Protocol.Trunc32Of | chatter.c:341 | a length that is a uint32_t value is unchanged by the cast |
| Protocol.NameFrameOf | chatter.c:506-518 | the NAME frame of a name of n bytes is the header carrying n, then the whole name |
| Protocol.MessageFrameOf | chatter.c:350-358 | the MESSAGE frame of a text of len bytes is the header carrying the id and len, then the whole text |
| Protocol.MessageFrameSent | chatter.c:350-358 | the struct sendMessage fills, followed by the text it sends, is the MESSAGE frame on either host |
| Protocol.FileHeaderOf | chatter.c:431-436 | the FILE header of a name of n bytes carries n in its shortInt and the truncated size in its longInt |
| Net.Socket.constructor | chatter.c:60 | a socket starts with nothing sent and the given incoming bytes and scripts |
| Net.Socket.Close | chatter.c:175 | close(2): the descriptor is closed; what was sent and what is still incoming stay as they were |
| Net.Socket.Send | chatter.c:94 | send(2) fails with -1 and delivers nothing, or delivers a non-empty prefix of what it is given; on a closed descriptor it always fails |
| Net.Socket.Recv | chatter.c:112 | recv(2) fails, hits end of stream, or takes a prefix of the incoming bytes into the buffer at the offset and leaves the rest of the buffer alone; on a closed descriptor it always fails |
| Net.SendLoop | chatter.c:89-105 | _send_loop delivers a prefix of the bytes; STATUS_SUCCESS exactly when it delivers all of them, FAILURE_GENERIC otherwise; nothing on a closed descriptor |
| Net.RecvLoop | chatter.c:107-124 | _recv_loop takes a prefix of the stream into the buffer; STATUS_SUCCESS exactly when it takes all len bytes |
| Net.DeliveredInTwo | chatter.c:355-358 | a header send followed, only on success, by a body send delivers a prefix of header plus body, and succeeds exactly when all of it went out |
| Net.SendInTwo | chatter.c:512-515 | the header-then-body send delivers a prefix of the frame and succeeds exactly when it delivers it all |
| Messages.FirstWithIdExists | chatter.c:395-404 | a history that holds a message with the id has a first such message |
| Messages.WithoutFirstIdDeletes | chatter.c:391-406 | the reference deletion removes exactly the first message with the id, and changes nothing when there is none |
| Messages.WithoutFirstIdAt | chatter.c:395-401 | deleting at the first message with the id is slicing it out |
| Messages.WithoutFirstIdMissing | chatter.c:393-405 | deleting an id that no message has changes nothing |
| Messages.DeletedIsWithoutFirstId | chatter.c:391-406 | any deletion of the first message with the id equals the reference deletion |
| Messages.DeleteMessageFromList | chatter.c:391-406 | _delete_message_from_list removes the first message with the id; STATUS_SUCCESS exactly when one existed, FAILURE_GENERIC otherwise |
| Files.Wanted | chatter.c:453 | fread asks for at most 1024 bytes, never past the end of the file, and for none only at its end |
| Files.Fread | chatter.c:453-457 | fread delivers the bytes wanted, or, when they pass the readable part, only the readable ones with the error flag set |
| Files.SendBuffered | chatter.c:459-468 | one send of the buffer delivers a prefix of it, and the memmove puts the unsent rest at the front |
| Files.SendChunks | chatter.c:451-469 | the chunk loop delivers a prefix of the file, never past its readable part, and succeeds exactly when that prefix is the whole file |
| Files.SendFileFrame | chatter.c:443-470 | the FILE header is sent first; only when it is complete do the name and then the data follow; STATUS_SUCCESS exactly when all three went out complete |
| Files.Opens | chatter.c:271 | fopen(name, "rb") returns a stream exactly when the name is not empty and names a readable file; it creates nothing |
| Files.WriteReadOnly | chatter.c:283 | fwrite to a stream opened "rb" writes no byte |
| Session.Chat.constructor | chatter.c:60-68 | _init_chat: a chat on the socket with empty histories and outCounter 0 |
| Session.Chat.Record | chatter.c:347 | LinkedList_addFirst on a history puts the message at its front |
| Session.Announcement | chatter.c:419-420 | the text "(Sending file "<name>")" is the name plus the 17 bytes around it |
| Session.NewAnonymousChat | chatter.c:612-613 | a fresh chat on the socket, named "Anonymous", with empty histories |
| Session.EmptyNameMatchesFirst | chatter.c:143-149 | the empty name selects the first chat of any registry |
| Session.Chatter.constructor | chatter.c:33-43 | _init_chatter: named "Anonymous", with no chats and no visible chat |
| Session.Chatter.GetChatFromName | chatter.c:136-155 | NULL exactly when no chat's name starts with q; otherwise the first chat in the list whose name does |
| Session.Chatter.Unlink | chatter.c:167 | the chat is removed from the registry and every other chat stays |
| Session.Chatter.RemoveChat | chatter.c:164-178 | the chat leaves the registry; the visible chat moves to the new head, or NULL, only when it was the chat removed; the chat's descriptor is closed |
| Session.Chatter.Unlist | chatter.c:167-173 | the steps of removeChat before close: the chat leaves the registry and the visible chat bounces as in RemoveChat |
| Session.Chatter.SwitchTo | chatter.c:558-572 | CHAT_DOESNT_EXIST and no change exactly when no name matches; otherwise the first match becomes visible |
| Session.Chatter.SendFrame | chatter.c:542 | sending a frame on a chat's socket keeps the registry valid and delivers a prefix of the frame, all of it on success |
| Session.Chatter.SendHeaderAndBody | chatter.c:512-515 | a header and then, on success, a body on a chat's socket deliver a prefix of both, all of it on success |
| Session.Chatter.CloseChat | chatter.c:527-549 | CHAT_DOESNT_EXIST exactly when no name matches; otherwise the first match leaves the registry with its descriptor closed, the END send on it fails, nothing reaches the peer, the result is FAILURE_GENERIC, and no other socket is touched |
| Session.Chatter.EndChatWith | chatter.c:534-543 | removeChat closes the chat's descriptor, so the END frame sent on it afterwards is not delivered and the result is FAILURE_GENERIC |
| Session.Chatter.Record | chatter.c:347 | a message added to a registered chat's history goes to its front, and the registry stays valid with only fresh objects added to its footprint |
| Session.Chatter.TakeId | chatter.c:340 | the id of a new message is the old outCounter, which grows by one modulo 2^16 |
| Session.Chatter.DeleteFromHistory | chatter.c:377 | the first message with the id leaves the history; success exactly when one existed |
| Session.Chatter.SendMessage | chatter.c:328-363 | FAILURE_GENERIC and no change without a visible chat; otherwise the message is stored first in the outgoing history under the counter's id, the counter grows, and a prefix of the MESSAGE frame goes out, all of it on success; the registry's footprint grows only by fresh objects |
| Session.Chatter.SendMessageOn | chatter.c:338-358 | the message is recorded and numbered, then its MESSAGE frame is sent; the registry's footprint grows only by fresh objects |
| Session.Chatter.SendMessageFrame | chatter.c:350-358 | the MESSAGE frame of the id and text goes out, a prefix of it when a send fails |
| Session.Chatter.SendFile | chatter.c:414-478 | the announcement is sent as a message first; a missing or unopenable file gives FAILURE_GENERIC; an open file goes out as a FILE frame, with success exactly when header, name and data all went out; the registry's footprint grows only by fresh objects |
| Session.Chatter.SendFileOn | chatter.c:414-478 | sendFile on the visible chat: the announcement is numbered, recorded and sent through sendMessage; then FAILURE_GENERIC for a file that does not open, or the FILE frame after the announcement's bytes |
| Session.Chatter.SendOpenFile | chatter.c:431-470 | the FILE header with the truncated name length and size, then that much of the name and the file |
| Session.Chatter.DeleteMessage | chatter.c:371-389 | the first outgoing message with the id is removed, a DELETE frame is sent in any case, and the outcome is that of the send |
| Session.Chatter.DeclareName | chatter.c:506-518 | _declare_name_to_chat sends a prefix of the NAME frame, all of it on success |
| Session.Chatter.BroadcastMyName | chatter.c:486-504 | the name goes to each chat in list order up to the first failure and to none after it; success exactly when every chat got it |
| Session.Chatter.DeclareToAll | chatter.c:496-499 | the loop with status = status or declare: full frames before the failing chat, a prefix at it, nothing after it |
| Session.Chatter.Register | chatter.c:615 | the new chat is put at the front of the registry, whose footprint grows by the chat's objects and one fresh list node |
| Session.Chatter.Unregister | chatter.c:633 | LinkedList_removeFirst drops the chat just added |
| Session.Chatter.SetupNewChat | chatter.c:604-646 | a new "Anonymous" chat is added at the front and told our name. If the thread starts it is kept, and it becomes visible when it is the only chat. Otherwise it is removed again with ERR_THREADCREATE. The new chat's objects are fresh, and so is everything the registry's footprint gains |
| Session.Chatter.AddAndDeclare | chatter.c:612-616 | step 1 of setupNewChat: the chat is added at the front, the footprint grows by its fresh objects and a fresh node, and a prefix of our NAME frame goes to it |
| Session.Chatter.StartReceiving | chatter.c:623-639 | step 2 of setupNewChat: success, with the first chat made visible, or ERR_THREADCREATE with the chat removed |
| Receiver.Renamed | chatter.c:223-224 | the buffer after a NAME pass: the payload at the front, a NUL at n, every other byte unchanged |
| Receiver.Possible | chatter.c:205-304 | what one pass can have read: no more than the header announces; for FILE a body only after fopen returned a stream, which needs a non-empty name, at most one chunk of it, and nothing written |
| Receiver.OpensOn | chatter.c:271 | a FILE pass's fopen result is whether the disk has the name it read |
| Receiver.Continues | chatter.c:205-304 | continue_receive_loop after the pass: NAME and MESSAGE when the read was complete, DELETE and unknown magics always, END never, FILE when name and body arrived whole and fwrite wrote all of the body |
| Receiver.Apply | chatter.c:217-304 | what one pass does to the chat: NAME renames it, MESSAGE prepends the message even when the read fell short, DELETE removes the first incoming message with the id, FILE, END and unknown magics change nothing |
| Receiver.EachPossible | chatter.c:205-308 | the recursive AllPossible holds exactly when every pass is possible |
| Receiver.EachStamped | chatter.c:245 | pass i of the loop is stamped with the i-th clock reading |
| Receiver.EachContinues | chatter.c:197-308 | the recursive AllContinue holds exactly when every pass left the loop running |
| Receiver.HeaderAgrees | chatter.c:205-213 | a pass over a stream that starts with an encoded header read that very header |
| Receiver.FrameRead | chatter.c:205-213 | after a header, a pass reads its payload and body from the bytes that follow that header |
| Receiver.PrefixRead | chatter.c:223 | a read of at most len bytes is a prefix of what was sent, and all of it exactly when it has len bytes |
| Receiver.RenamedTo | chatter.c:223-224 | after a complete NAME read the name buffer holds exactly the name sent |
| Receiver.NamePass | chatter.c:218-229 | on a stream starting with a peer's NAME frame, the pass reads a prefix of the name; it continues exactly when it read all of it, and then the chat's name is the name sent |
| Receiver.NameRead | chatter.c:221-226 | a NAME pass reads a prefix of the name and continues exactly when it read all of it |
| Receiver.NameApplied | chatter.c:223-224 | a complete NAME pass renames the peer to the name sent |
| Receiver.MessagePass | chatter.c:231-249 | on a stream starting with a peer's MESSAGE frame, the pass continues exactly when it read the whole text, and then the message, with its id and the pass's time, is first in the incoming history |
| Receiver.MessageRead | chatter.c:235-242 | a MESSAGE pass reads a prefix of the text and continues exactly when it read all of it |
| Receiver.MessageApplied | chatter.c:240-248 | a complete MESSAGE pass puts the text, with its id and the pass's time, at the front of the incoming history |
| Receiver.DeletePass | chatter.c:251-256 | on a stream starting with a peer's DELETE frame, the pass removes the first incoming message with the id and continues |
| Receiver.EndPass | chatter.c:295-299 | on a stream starting with END, the pass changes nothing and ends the loop |
| Receiver.FilePass | chatter.c:258-293 | on a stream starting with a peer's FILE frame, the pass reads a prefix of the name; after the whole name, its body bytes are the front of the file's bytes; the pass always ends the loop and leaves the chat as it was |
| Receiver.FileEnds | chatter.c:258-293 | no FILE pass leaves the loop running: an opened name is non-empty, so the body is non-empty, and the read-only stream writes none of it |
| Receiver.NoFileContinues | chatter.c:197-308 | passes that all left the loop running contain no FILE pass |
| Receiver.RecvTerminated | chatter.c:223-224 | a _recv_loop of n bytes followed by a NUL at n; success exactly when all n bytes arrived |
| Receiver.ZeroFilledHolds | chatter.c:237-240 | a zero-filled buffer with a payload read into it holds the payload up to its first NUL |
| Receiver.ReceiveName | chatter.c:220-228 | the NAME case: the peer's name buffer takes the bytes read, terminated at n |
| Receiver.ReceiveMessage | chatter.c:233-248 | the MESSAGE case: a new incoming message with the id, the time and the text read goes first in the history |
| Receiver.ReceiveDelete | chatter.c:251-256 | the DELETE case removes the first incoming message with the id |
| Receiver.ReceiveFile | chatter.c:258-293 | the FILE case reads the name and opens it "rb" exactly when the disk has it; a body of at most one chunk is read only then and nothing is written; it would continue exactly when name and body arrived whole and were written whole, and so it never does |
| Receiver.ReceiveFileName | chatter.c:261-267 | the file name is the bytes read up to the first NUL; success exactly when all n arrived |
| Receiver.CopyBody | chatter.c:276-291 | the copy loop reads a prefix of the body, at most one chunk, and writes none of it to the read-only stream; success exactly when all n bytes were read and written |
| Receiver.HandleName | chatter.c:218-229 | the NAME case is one pass of the loop as Apply describes it |
| Receiver.HandleMessage | chatter.c:231-249 | the MESSAGE case is one pass of the loop as Apply describes it |
| Receiver.HandleDelete | chatter.c:251-256 | the DELETE case is one pass of the loop as Apply describes it |
| Receiver.HandleFile | chatter.c:258-293 | the FILE case is one pass of the loop as Apply describes it |
| Receiver.HandleFrame | chatter.c:217-304 | the switch on the magic: each case is its pass, and an unknown magic changes nothing and keeps the loop running |
| Receiver.Snoc | chatter.c:205-308 | the bytes of one more pass follow the bytes of the earlier ones |
| Receiver.ApplyKeeps | chatter.c:217-304 | a pass never touches the outgoing counter, the outgoing history or what the chat has sent |
| Receiver.ApplyAllKeepsOut | chatter.c:205-308 | the receive loop never changes the chat's outCounter, its outgoing history or what it has sent |
| Receiver.ApplySnoc | chatter.c:205-308 | the effect of one more pass is that pass applied after the earlier ones |
| Receiver.WireStep | chatter.c:205-308 | one more pass extends the consumed stream by exactly that pass's bytes |
| Receiver.ReadHeader | chatter.c:205-213 | the header read and decoded, or fewer than 7 bytes consumed and nothing changed |
| Receiver.Pass | chatter.c:205-307 | one iteration: a failed header read consumes fewer than 7 bytes and changes nothing; otherwise the header and the case's bytes are consumed and the pass applied |
| Receiver.ReceiveOn | chatter.c:197-308 | the loop consumes the frames of its passes in order; it ends on a short header or on the first pass that stops it; each FILE pass asked the disk; the chat ends up as all passes applied in order, and nothing is sent |
| Receiver.ReceiveLoop | chatter.c:191-313 | receiveLoop on a registered chat: the passes as in ReceiveOn, nothing sent, the registry and visible chat unchanged, and its footprint grown only by fresh objects |

## Left out

- The ncurses GUI, the window reprints, `debug_print` and `LinkedList_print` are left out: they are output only and change no state the model keeps.
- Threads and `chatter->lock` are left out. Each operation is one atomic step, and the receive thread's start is the `threadCreated` parameter of `SetupNewChat`.
- `connectChat`, `serverLoop`, `main` and `socketErrorAndExit` are left out, and so is `setsockopt` (Nagle). They concern connection set-up and the operating system, not the session state. (The `close` in `removeChat` is modelled, by a socket's `closed` flag.)
- `malloc`/`free` are left out: Dafny has no deallocation. `_free_chat`, `_free_chatter` and `_init_GUI` are not modelled.
- Session.Chatter.CloseChat: `removeChat` also frees the chat before `closeChat` reads `chat->sockfd` to send END. The model reads the socket of the removed chat and does not model the use after free. It does model that the descriptor is already closed.
- `time(NULL)` is the parameter `now` of the send side and the function `clock` on the receive side.
- Receiver.ReceiveMessage: `malloc` contents are unknown. The freshly allocated buffers of the MESSAGE text and the FILE name are modelled as zero-filled, so a text or name that arrives short reads as the bytes received up to their first NUL.
- Receiver.ReceiveFile: the file system is the set of names `fopen(name, "rb")` can open. Permissions, `fclose` and the file's contents are not modelled, since a read-only stream writes nothing and the FILE case reads nothing from it.
- Session.Chatter.SendFile: `stat`, `fopen` and `fread` are summarised by the `FileInfo` parameter, so the file's contents do not change while it is sent.
- Session.Chatter.SendFile: it requires a visible chat when the file opens, because `sendFile` then dereferences `visibleChat` without a check.
- Session.Chatter.SendFile: it requires a file size below 2^32. `sendFile` truncates `st_size` to 32 bits. The model does not cover a chunk loop that runs on a truncated size.
- Session.Chatter.DeleteMessage: it requires a visible chat, because `deleteMessage` dereferences `visibleChat` without a check.
- Lists.LinkedList.Free: only the traversal is modelled, because nodes are not deallocated. It returns the data of the nodes released, in order.
- Receiver.ReceiveLoop: the receive thread's parameter block and `free(param)` are not modelled. The chatter and chat are parameters.
