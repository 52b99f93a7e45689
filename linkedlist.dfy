/**
  The singly linked list of linkedlist.c, which holds every collection of the
  chat engine (the chats, and each chat's incoming and outgoing messages).

  A list object points at its first node; each node holds one data reference
  and the next node, the last one NULL. The public view is the ghost sequence
  `Contents` of data references, head first. `Nodes` lists the nodes in chain
  order and `Repr` is the list's footprint. Valid() says the chain from `head`
  visits exactly `Nodes` and its last node ends in null, with no node twice:
  the list is null-terminated and acyclic.
 */
module Lists {
  import opened Options

  /** The first index at which `x` occurs in `s`. */
  function IndexOf<T(==)>(s: seq<T>, x: T): (i: nat)
    requires x in s
    ensures i < |s| && s[i] == x && x !in s[..i]
  {
    if s[0] == x then 0
    else
      assert x in s[1..] by { assert s == [s[0]] + s[1..]; }
      var j := IndexOf(s[1..], x);
      assert s[..j + 1] == [s[0]] + s[1..][..j];
      1 + j
  }

  /** `s` without the first occurrence of `x`; `s` itself when `x` is absent. */
  function Erase<T(==)>(s: seq<T>, x: T): seq<T>
  {
    if s == [] then []
    else if s[0] == x then s[1..]
    else [s[0]] + Erase(s[1..], x)
  }

  /** Erasing an absent element changes nothing. */
  lemma {:induction false} EraseAbsent<T>(s: seq<T>, x: T)
    requires x !in s
    ensures Erase(s, x) == s
  {
    if s != [] {
      assert x !in s[1..];
      EraseAbsent(s[1..], x);
    }
  }

  /** Erasing a present element cuts out exactly its first occurrence. */
  lemma {:induction false} EraseAt<T>(s: seq<T>, x: T)
    requires x in s
    ensures Erase(s, x) == s[..IndexOf(s, x)] + s[IndexOf(s, x) + 1..]
  {
    if s[0] != x {
      assert x in s[1..] by { assert s == [s[0]] + s[1..]; }
      EraseAt(s[1..], x);
    }
  }

  /** Erasing removes one copy of `x`, if any, and keeps the other elements. */
  lemma {:induction false} EraseMultiset<T>(s: seq<T>, x: T)
    ensures x in s ==> multiset(Erase(s, x)) == multiset(s) - multiset{x}
    ensures x !in s ==> multiset(Erase(s, x)) == multiset(s)
    ensures |Erase(s, x)| == if x in s then |s| - 1 else |s|
  {
    if s != [] {
      assert s == [s[0]] + s[1..];
      EraseMultiset(s[1..], x);
    }
  }

  /** No element occurs twice. */
  ghost predicate Distinct<T>(s: seq<T>) {
    forall i, j :: 0 <= i < j < |s| ==> s[i] != s[j]
  }

  /** Erasing `y` keeps every other element and adds none. */
  lemma {:induction false} EraseMembers<T>(s: seq<T>, x: T, y: T)
    ensures x in Erase(s, y) ==> x in s
    ensures x in s && x != y ==> x in Erase(s, y)
  {
    if s != [] {
      assert s == [s[0]] + s[1..];
      EraseMembers(s[1..], x, y);
    }
  }

  /** In a sequence without repeats, erasing `y` removes it altogether and keeps the rest free of repeats. */
  lemma {:induction false} EraseDistinct<T>(s: seq<T>, y: T)
    requires Distinct(s)
    ensures Distinct(Erase(s, y)) && y !in Erase(s, y)
  {
    if s != [] {
      var t := s[1..];
      assert Distinct(t) by {
        forall i, j | 0 <= i < j < |t| ensures t[i] != t[j] {
          assert t[i] == s[i + 1] && t[j] == s[j + 1];
        }
      }
      assert s[0] !in t by {
        forall j | 0 <= j < |t| ensures t[j] != s[0] {
          assert t[j] == s[j + 1];
        }
      }
      if s[0] != y {
        EraseDistinct(t, y);
        EraseMembers(t, s[0], y);
        var e := Erase(t, y);
        assert Erase(s, y) == [s[0]] + e;
        forall i, j | 0 <= i < j < |[s[0]] + e| ensures ([s[0]] + e)[i] != ([s[0]] + e)[j] {
          if i == 0 {
            assert ([s[0]] + e)[j] == e[j - 1];
          } else {
            assert ([s[0]] + e)[i] == e[i - 1] && ([s[0]] + e)[j] == e[j - 1];
          }
        }
      }
    }
  }

  class Node<T> {
    var data: T
    var next: Node?<T>

    constructor (data: T, next: Node?<T>)
      ensures this.data == data && this.next == next
    {
      this.data := data;
      this.next := next;
    }
  }

  class LinkedList<T(==)> {
    var head: Node?<T>
    ghost var Contents: seq<T>
    ghost var Nodes: seq<Node<T>>
    ghost var Repr: set<object>

    ghost predicate Valid()
      reads this, Repr
    {
      && this in Repr
      && |Nodes| == |Contents|
      && head == (if Nodes == [] then null else Nodes[0])
      && (forall i :: 0 <= i < |Nodes| ==> Nodes[i] in Repr && Nodes[i].data == Contents[i])
      && (forall i :: 0 <= i < |Nodes| - 1 ==> Nodes[i].next == Nodes[i + 1])
      && (Nodes != [] ==> Nodes[|Nodes| - 1].next == null)
      && (forall i, j :: 0 <= i < j < |Nodes| ==> Nodes[i] != Nodes[j])
    }

    /** LinkedList_init: a list whose head is null. */
    constructor ()
      ensures Valid() && fresh(Repr)
      ensures Contents == [] && head == null
    {
      head := null;
      Contents := [];
      Nodes := [];
      Repr := {this};
    }

    /** LinkedList_addFirst: a new node holding `data` becomes the head. */
    method AddFirst(data: T)
      requires Valid()
      modifies this
      ensures Valid()
      ensures Contents == [data] + old(Contents)
      ensures head != null && fresh(head) && head.data == data && head.next == old(head)
      ensures Repr == old(Repr) + {head}
    {
      var newHead := new Node(data, head);
      head := newHead;
      Nodes := [newHead] + Nodes;
      Contents := [data] + Contents;
      Repr := Repr + {newHead};
    }

    /**
      LinkedList_removeFirst: the old head's data, the list left as its tail;
      on an empty list, NULL and no change.
     */
    method RemoveFirst() returns (ret: Option<T>)
      requires Valid()
      modifies this
      ensures Valid() && Repr == old(Repr)
      ensures old(Contents) == [] ==> ret == None && Contents == []
      ensures old(Contents) != [] ==> ret == Some(old(Contents)[0]) && Contents == old(Contents)[1..]
    {
      ret := None;
      if head != null {
        ret := Some(head.data);
        head := head.next;
        Nodes := Nodes[1..];
        Contents := Contents[1..];
      }
    }

    /**
      LinkedList_remove: unlinks the first node whose data is `data` and
      returns `data`; when no node holds it, returns NULL and changes nothing.
     */
    method Remove(data: T) returns (ret: Option<T>)
      requires Valid()
      modifies Repr
      ensures Valid() && Repr == old(Repr)
      ensures Contents == Erase(old(Contents), data)
      ensures data in old(Contents) ==> ret == Some(data)
      ensures data !in old(Contents) ==> ret == None
    {
      ret := None;
      if head != null {
        var node := head;
        if node.data == data {
          ret := RemoveFirst();
        } else {
          ghost var k := 0;
          while node.next != null
            invariant Valid() && Repr == old(Repr)
            invariant Contents == old(Contents) && Nodes == old(Nodes)
            invariant 0 <= k < |Nodes| && node == Nodes[k]
            invariant node.next == if k + 1 < |Nodes| then Nodes[k + 1] else null
            invariant data !in Contents[..k + 1]
            invariant ret == None
            decreases |Nodes| - k
          {
            if node.next.data == data {
              var temp := node.next;
              assert temp.next == if k + 2 < |Nodes| then Nodes[k + 2] else null;
              node.next := node.next.next;
              ret := Some(temp.data);
              assert Contents[k + 1] == data;
              assert IndexOf(Contents, data) == k + 1;
              RemoveNode(k + 1);
              break;
            } else {
              node := node.next;
              k := k + 1;
            }
          }
          if ret == None {
            assert Contents[..k + 1] == Contents;
          }
        }
      }
      if ret == None {
        EraseAbsent(Contents, data);
      } else {
        EraseAt(old(Contents), data);
      }
    }

    /**
      The ghost bookkeeping of an unlink in the middle: once the node before
      position `k` has been rewired past it, the chain is the old one without
      position `k`.
     */
    ghost method RemoveNode(k: nat)
      requires 0 < k < |Nodes| && |Nodes| == |Contents| && this in Repr
      requires head == Nodes[0]
      requires forall i :: 0 <= i < |Nodes| ==> Nodes[i] in Repr && Nodes[i].data == Contents[i]
      requires forall i :: 0 <= i < |Nodes| - 1 && i != k - 1 ==> Nodes[i].next == Nodes[i + 1]
      requires Nodes[|Nodes| - 1].next == null
      requires Nodes[k - 1].next == (if k + 1 < |Nodes| then Nodes[k + 1] else null)
      requires forall i, j :: 0 <= i < j < |Nodes| ==> Nodes[i] != Nodes[j]
      modifies this`Nodes, this`Contents
      ensures Valid()
      ensures Nodes == old(Nodes[..k] + Nodes[k + 1..])
      ensures Contents == old(Contents[..k] + Contents[k + 1..])
    {
      Nodes := Nodes[..k] + Nodes[k + 1..];
      Contents := Contents[..k] + Contents[k + 1..];
    }

    /**
      LinkedList_free, as a traversal: it walks the chain from the head to
      null and releases the nodes in order. Dafny has no deallocation, so the
      model returns the data of the released nodes.
     */
    method Free() returns (released: seq<T>)
      requires Valid()
      ensures released == Contents
    {
      released := [];
      var node := head;
      ghost var k := 0;
      while node != null
        invariant 0 <= k <= |Nodes|
        invariant node == (if k < |Nodes| then Nodes[k] else null)
        invariant released == Contents[..k]
        decreases |Nodes| - k
      {
        released := released + [node.data];
        node := node.next;
        k := k + 1;
      }
    }
  }
}
