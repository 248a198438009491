/** The intrusive circular doubly-linked list underneath the stack. A list
    head is itself a node; an empty list is a head whose links point back at
    itself, and a list of nodes s is the ring head -> s[0] -> ... -> s[|s|-1]
    -> head, linked both ways. The list stores no payload and never allocates:
    every operation only relinks `prev`/`next` fields of existing nodes. */
module IntrusiveList {

  /** A list node, embedded by the caller in a host record. Its links are
      unset (null) until it is initialised as a head or inserted in a list. */
  class Node {
    var prev: Node?
    var next: Node?

    constructor ()
      ensures prev == null && next == null
    {
      prev := null;
      next := null;
    }
  }

  /** The node after position i of the ring head, s[0], ..., s[|s|-1]. */
  ghost function After(h: Node, s: seq<Node>, i: int): Node
    requires 0 <= i < |s|
  {
    if i + 1 < |s| then s[i + 1] else h
  }

  /** The node before position i of the ring head, s[0], ..., s[|s|-1]. */
  ghost function Before(h: Node, s: seq<Node>, i: int): Node
    requires 0 <= i < |s|
  {
    if i > 0 then s[i - 1] else h
  }

  /** The nodes s are distinct, none is h, and each one's links reach its
      neighbours in the ring h, s[0], ..., s[|s|-1]. Only the nodes of s are
      read: the head's own links are not part of the chain. */
  ghost predicate Chain(h: Node, s: seq<Node>)
    reads s
  {
    h !in s &&
    (forall i, j :: 0 <= i < j < |s| ==> s[i] != s[j]) &&
    (forall i {:trigger s[i].next} {:trigger s[i].prev} :: 0 <= i < |s| ==> s[i].next == After(h, s, i) && s[i].prev == Before(h, s, i))
  }

  /** Head h holds exactly the nodes s, in order from the first to the tail:
      they form a chain around h, and the head's links reach the first and
      last node (the head itself when s is empty). */
  ghost predicate Linked(h: Node, s: seq<Node>)
    reads h, s
  {
    Chain(h, s) &&
    h.next == (if s == [] then h else s[0]) &&
    h.prev == (if s == [] then h else s[|s| - 1])
  }

  /** The heap determines a list's contents: a head links one sequence only. */
  lemma {:induction false} LinkedUnique(h: Node, s: seq<Node>, t: seq<Node>)
    requires Linked(h, s) && Linked(h, t)
    ensures s == t
  {
    if |s| <= |t| {
      LinkedPrefix(h, s, t, |s|);
    } else {
      LinkedPrefix(h, t, s, |t|);
    }
  }

  /** Walking k steps from the head visits the same nodes in s and t, and the
      shorter walk cannot end before the longer one. */
  lemma {:induction false} LinkedPrefix(h: Node, s: seq<Node>, t: seq<Node>, k: nat)
    requires Linked(h, s) && Linked(h, t) && |s| <= |t| && k <= |s|
    ensures s[..k] == t[..k]
    ensures k == |s| ==> |s| == |t|
  {
    if k > 0 {
      LinkedPrefix(h, s, t, k - 1);
      if k == 1 {
        assert s[0] == h.next == t[0];
      } else {
        assert s[k - 2] == t[k - 2];
        assert s[k - 1] == s[k - 2].next == t[k - 2].next == After(h, t, k - 2);
        assert s[k - 1] == t[k - 1];
      }
      assert s[..k] == s[..k - 1] + [s[k - 1]];
      assert t[..k] == t[..k - 1] + [t[k - 1]];
    }
  }

  /** `xcomm_list_init`: the head points at itself, an empty list. */
  method Init(h: Node)
    modifies h
    ensures Linked(h, [])
  {
    h.prev := h;
    h.next := h;
  }

  /** `xcomm_list_empty`: the head's next link is the head itself. */
  function Empty(h: Node): (b: bool)
    reads h
  {
    h.next == h
  }

  /** A linked list is empty exactly when it holds no node. */
  lemma EmptyIff(h: Node, s: seq<Node>)
    requires Linked(h, s)
    ensures Empty(h) <==> s == []
  {
    if s != [] {
      assert h.next == s[0] && s[0] in s;
    }
  }

  /** `xcomm_list_tail`: the head's previous link. */
  function Tail(h: Node): (r: Node?)
    reads h
  {
    h.prev
  }

  /** `xcomm_list_insert_tail`: links node between the current tail and the
      head. Only the head, the node and the former tail change. */
  method InsertTail(h: Node, node: Node, ghost s: seq<Node>)
    requires Linked(h, s) && node != h && node !in s
    modifies h, node, h.prev
    ensures Linked(h, s + [node])
  {
    var last := h.prev;
    node.prev := last;
    node.next := h;
    last.next := node;
    h.prev := node;
    ghost var t := s + [node];
    forall i | 0 <= i < |t|
      ensures t[i].next == After(h, t, i) && t[i].prev == Before(h, t, i)
    {
      if i < |s| - 1 {
        assert t[i] != last;
      }
    }
  }

  /** `xcomm_list_remove`: joins the neighbours of s[k] around it. Only those
      two neighbours change; the removed node keeps its own stale links. */
  method Remove(node: Node, ghost h: Node, ghost s: seq<Node>, ghost k: nat)
    requires Linked(h, s) && k < |s| && s[k] == node
    modifies node.prev, node.next
    ensures Linked(h, s[..k] + s[k + 1..])
    ensures node.prev == old(node.prev) && node.next == old(node.next)
  {
    var p, n := node.prev, node.next;
    p.next := n;
    n.prev := p;
    ghost var t := s[..k] + s[k + 1..];
    forall i, j | 0 <= i < j < |t|
      ensures t[i] != t[j]
    {
      var i', j' := if i < k then i else i + 1, if j < k then j else j + 1;
      assert t[i] == s[i'] && t[j] == s[j'];
    }
    forall i | 0 <= i < |t|
      ensures t[i].next == After(h, t, i) && t[i].prev == Before(h, t, i)
    {
      var i' := if i < k then i else i + 1;
      assert t[i] == s[i'];
      if i' + 1 < |s| {
        assert s[i' + 1] != node || i' + 1 == k;
      }
    }
  }

  /** Head h takes over the non-empty chain s, which was linked around the
      head `from`: h's links reach both ends, whose outward links now reach h. */
  method Adopt(h: Node, first: Node, last: Node, ghost from: Node, ghost s: seq<Node>)
    requires Chain(from, s) && s != [] && first == s[0] && last == s[|s| - 1] && h !in s
    modifies h, first, last
    ensures Linked(h, s)
  {
    h.next, h.prev := first, last;
    first.prev := h;
    last.next := h;
    forall i | 0 <= i < |s|
      ensures s[i].next == After(h, s, i) && s[i].prev == Before(h, s, i)
    {
      assert old(s[i].next) == After(from, s, i) && old(s[i].prev) == Before(from, s, i);
    }
  }

  /** `xcomm_list_swap`: the two heads exchange their lists. Each head takes
      over the other's first and last node, which are relinked to it; a head
      whose partner was empty becomes empty. */
  method Swap(h1: Node, h2: Node, ghost s1: seq<Node>, ghost s2: seq<Node>)
    requires h1 != h2 && Linked(h1, s1) && Linked(h2, s2)
    requires h1 !in s2 && h2 !in s1 && forall x :: x in s1 ==> x !in s2
    modifies h1, h2, h1.next, h1.prev, h2.next, h2.prev
    ensures Linked(h1, s2) && Linked(h2, s1)
  {
    var n1, p1, n2, p2 := h1.next, h1.prev, h2.next, h2.prev;
    if n2 == h2 {
      Init(h1);
    } else {
      assert n2 in s2 && p2 in s2;
      Adopt(h1, n2, p2, h2, s2);
    }
    if n1 == h1 {
      Init(h2);
    } else {
      assert n1 in s1 && p1 in s1;
      Adopt(h2, n1, p1, h1, s1);
    }
  }
}
