/** The intrusive LIFO stack: a list head whose tail is the top. A stack of
    nodes s (bottom first) is a head h with Linked(h, s); push links a node
    in after the tail and pop unlinks the tail. Nothing is allocated or
    freed: the caller owns every node. */
module Stack {
  import L = IntrusiveList

  /** `xcomm_stack_init`: an empty stack. */
  method Init(stack: L.Node)
    modifies stack
    ensures L.Linked(stack, [])
  {
    L.Init(stack);
  }

  /** `xcomm_stack_push`: node becomes the new top; the nodes below keep
      their order. Only the head, the node and the former top are relinked. */
  method Push(stack: L.Node, node: L.Node, ghost s: seq<L.Node>)
    requires L.Linked(stack, s) && node != stack && node !in s
    modifies stack, node, stack.prev
    ensures L.Linked(stack, s + [node])
  {
    L.InsertTail(stack, node, s);
  }

  /** `xcomm_stack_empty`: true exactly when the stack holds no node. */
  function Empty(stack: L.Node, ghost s: seq<L.Node>): (b: bool)
    reads stack, s
    requires L.Linked(stack, s)
    ensures b <==> s == []
  {
    L.EmptyIff(stack, s);
    L.Empty(stack)
  }

  /** `xcomm_stack_pop`: on an empty stack, null and nothing changes;
      otherwise the top node, unlinked, with the nodes below it in order.
      Only the head and the node below the top are relinked. */
  method Pop(stack: L.Node, ghost s: seq<L.Node>) returns (node: L.Node?)
    requires L.Linked(stack, s)
    modifies stack, stack.prev.prev
    ensures s == [] ==> node == null && unchanged(stack)
    ensures s != [] ==> node == s[|s| - 1] && L.Linked(stack, s[..|s| - 1])
  {
    if Empty(stack, s) {
      return null;
    }
    node := L.Tail(stack);
    L.Remove(node, stack, s, |s| - 1);
    assert s[..|s| - 1] + s[|s|..] == s[..|s| - 1];
  }

  /** `xcomm_stack_swap`: each stack takes over the other's nodes, in order. */
  method Swap(stack1: L.Node, stack2: L.Node, ghost s1: seq<L.Node>, ghost s2: seq<L.Node>)
    requires stack1 != stack2 && L.Linked(stack1, s1) && L.Linked(stack2, s2)
    requires stack1 !in s2 && stack2 !in s1 && forall x :: x in s1 ==> x !in s2
    modifies stack1, stack2, stack1.next, stack1.prev, stack2.next, stack2.prev
    ensures L.Linked(stack1, s2) && L.Linked(stack2, s1)
  {
    L.Swap(stack1, stack2, s1, s2);
  }

  /** Pushing a node and popping at once returns that node and leaves the
      stack holding what it held before. */
  method PushThenPop(stack: L.Node, node: L.Node, ghost s: seq<L.Node>) returns (top: L.Node?)
    requires L.Linked(stack, s) && node != stack && node !in s
    modifies stack, node, stack.prev
    ensures top == node && L.Linked(stack, s)
  {
    Push(stack, node, s);
    top := Pop(stack, s + [node]);
    assert (s + [node])[..|s|] == s;
  }

  /** Swapping twice gives each stack back its own nodes. */
  method SwapTwice(stack1: L.Node, stack2: L.Node, ghost s1: seq<L.Node>, ghost s2: seq<L.Node>)
    requires stack1 != stack2 && L.Linked(stack1, s1) && L.Linked(stack2, s2)
    requires stack1 !in s2 && stack2 !in s1 && forall x :: x in s1 ==> x !in s2
    modifies stack1, stack2, s1, s2
    ensures L.Linked(stack1, s1) && L.Linked(stack2, s2)
  {
    Swap(stack1, stack2, s1, s2);
    Swap(stack1, stack2, s2, s1);
  }
}
