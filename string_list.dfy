/** The string-only list of the console demo: the same container as the
    generic one with `std::string` values, no push operations, and a `clear`
    that scrubs every node's links before deleting it. */
module StringList {
  import opened ListSpec

  class Node {
    const value: string
    var prev: Node?
    var next: Node?
    /** Set once a list has deleted this node (`remove`, `clear`): from then
        on it may be neither linked nor inserted. */
    ghost var deleted: bool

    /** A new node is detached: both links absent, not deleted. */
    constructor (v: string)
      ensures value == v && prev == null && next == null && !deleted
    {
      value := v;
      prev := null;
      next := null;
      deleted := false;
    }
  }

  function ValueOf(n: Node): string {
    n.value
  }

  class DoublyLinkedList {
    var head: Node?
    var tail: Node?
    var size: nat
    /** The DLLIST_DEBUG_CHECKS build option: scan for membership of anchors and targets. */
    const checked: bool

    /** The linked nodes in forward order. */
    ghost var Nodes: seq<Node>

    /** The invariant `sanity` checks, and the link symmetry the pointer
        surgery relies on: walking `next` from `head` and `prev` from `tail`
        both visit exactly `Nodes`, once each. */
    ghost predicate Linked()
      reads this`head, this`tail, this`size, this`Nodes, Nodes
    {
      && size == |Nodes|
      && Distinct(Nodes)
      && (Nodes == [] ==> head == null && tail == null)
      && (Nodes != [] ==> head == Nodes[0] && tail == Nodes[|Nodes| - 1])
      && (forall i {:trigger Nodes[i].prev} :: 0 <= i < |Nodes| ==>
            Nodes[i].prev == if i == 0 then null else Nodes[i - 1])
      && (forall i {:trigger Nodes[i].next} :: 0 <= i < |Nodes| ==>
            Nodes[i].next == if i == |Nodes| - 1 then null else Nodes[i + 1])
    }

    /** A well-linked list none of whose nodes has been deleted. */
    ghost predicate Valid()
      reads this, Nodes
    {
      Linked() && forall i :: 0 <= i < |Nodes| ==> !Nodes[i].deleted
    }

    /** The values in forward order. */
    ghost function Elements(): seq<string>
      reads this`Nodes
    {
      Map(ValueOf, Nodes)
    }

    constructor (checks: bool)
      ensures Valid() && checked == checks
      ensures Nodes == []
    {
      head, tail, size := null, null, 0;
      checked := checks;
      Nodes := [];
    }

    /** The guards of insertAfter and insertBefore, in the order the source
        runs them; the membership scan only in a checked build. */
    ghost function InsertGuards(cur: Node?, newNode: Node?): (r: Outcome)
      reads this, newNode
      ensures r.Ok? <==>
        && (head == null || cur != null)
        && newNode != null && newNode != cur
        && newNode.prev == null && newNode.next == null
        && (checked && head != null ==> cur in Nodes)
    {
      if head != null && cur == null then Err(NullAnchor)
      else if newNode == null then Err(NullNewNode)
      else if newNode == cur then Err(SelfInsertion)
      else if newNode.prev != null || newNode.next != null then Err(AlreadyLinked)
      else if checked && head != null && cur !in Nodes then Err(AnchorNotInList)
      else Ok
    }

    /** The guards of remove and detach, in source order. */
    ghost function RemoveGuards(target: Node?): (r: Outcome)
      reads this
      ensures r.Ok? <==> target != null && head != null && (checked ==> target in Nodes)
    {
      if target == null then Err(NullTarget)
      else if head == null then Err(EmptyList)
      else if checked && target !in Nodes then Err(TargetNotInList)
      else Ok
    }

    /** A node that passed the "not already linked" guard, offered next to an
        anchor of this list, is not itself in this list: the only linked node
        with both links absent is the sole node of a one-node list, and then
        it is the anchor. */
    lemma DetachedNodeIsForeign(cur: Node, newNode: Node)
      requires Valid() && cur in Nodes && newNode != cur
      requires newNode.prev == null && newNode.next == null
      ensures newNode !in Nodes
    {
      if newNode in Nodes {
        var i := IndexOf(Nodes, newNode);
        var j := IndexOf(Nodes, cur);
        assert false;
      }
    }

    function Size(): (n: nat)
      reads this, Nodes
      requires Valid()
      ensures n == |Nodes| && n == |Elements()|
    {
      size
    }

    function IsEmpty(): (b: bool)
      reads this, Nodes
      requires Valid()
      ensures b <==> Nodes == []
      ensures b <==> head == null && tail == null
    {
      size == 0
    }

    /** The membership scan of the checked build: walks `next` from `head`. */
    method Contains(n: Node?) returns (found: bool)
      requires Valid()
      ensures found <==> n in Nodes
    {
      found := false;
      var t := head;
      ghost var i := 0;
      while t != null
        invariant 0 <= i <= |Nodes|
        invariant t == if i < |Nodes| then Nodes[i] else null
        invariant n !in Nodes[..i]
        decreases |Nodes| - i
      {
        if t == n {
          found := true;
          break;
        }
        assert Nodes[..i + 1] == Nodes[..i] + [Nodes[i]];
        t := t.next;
        i := i + 1;
      }
      assert t == null ==> Nodes[..i] == Nodes;
    }

    method InsertAfter(cur: Node?, newNode: Node?) returns (r: Outcome)
      requires Valid()
      requires newNode != null ==> !newNode.deleted
      requires InsertGuards(cur, newNode).Ok? && Nodes != [] ==> cur in Nodes
      modifies this, Nodes, newNode
      ensures Valid()
      ensures r == old(InsertGuards(cur, newNode))
      ensures r.Err? ==> unchanged(this) && unchanged(Nodes) && (newNode != null ==> unchanged(newNode))
      ensures r.Ok? && old(Nodes) == [] ==>
        Nodes == [newNode] && Elements() == [newNode.value] && head == newNode && tail == newNode
      ensures r.Ok? && old(Nodes) != [] ==>
        && Nodes == InsertAt(old(Nodes), IndexOf(old(Nodes), cur) + 1, newNode)
        && Elements() == InsertAt(old(Elements()), IndexOf(old(Nodes), cur) + 1, newNode.value)
        && head == old(head)
        && tail == (if cur == old(tail) then newNode else old(tail))
    {
      if head != null && cur == null { return Err(NullAnchor); }
      if newNode == null { return Err(NullNewNode); }
      if newNode == cur { return Err(SelfInsertion); }
      if newNode.prev != null || newNode.next != null { return Err(AlreadyLinked); }
      if checked && head != null {
        var found := Contains(cur);
        if !found { return Err(AnchorNotInList); }
      }

      LinkAfter(cur, newNode);
      return Ok;
    }

    /** The linking cases of insertAfter, once its guards have passed: the
        empty list, the anchor at the tail end, an anchor in the middle. */
    method LinkAfter(cur: Node?, newNode: Node)
      requires Valid() && !newNode.deleted && newNode != cur
      requires newNode.prev == null && newNode.next == null
      requires Nodes != [] ==> cur in Nodes
      modifies this, Nodes, newNode
      ensures Valid()
      ensures old(Nodes) == [] ==>
        Nodes == [newNode] && Elements() == [newNode.value] && head == newNode && tail == newNode
      ensures old(Nodes) != [] ==>
        && Nodes == InsertAt(old(Nodes), IndexOf(old(Nodes), cur) + 1, newNode)
        && Elements() == InsertAt(old(Elements()), IndexOf(old(Nodes), cur) + 1, newNode.value)
        && head == old(head)
        && tail == (if cur == old(tail) then newNode else old(tail))
    {
      ghost var ns := Nodes;
      if head == null {
        LinkFirst(newNode);
        MapAt<Node, string>(ValueOf, Nodes, 0);
        return;
      }
      DetachedNodeIsForeign(cur, newNode);
      ghost var k := IndexOf(ns, cur);
      MapInsertAt<Node, string>(ValueOf, ns, k + 1, newNode);
      if cur == tail {
        LinkAtTail(newNode);
        assert ns[..k + 1] == ns;
        return;
      }
      assert cur.next == ns[k + 1];
      var sucNode := cur.next;
      LinkBetween(cur, sucNode, newNode, k + 1);
      return;
    }

    method InsertBefore(cur: Node?, newNode: Node?) returns (r: Outcome)
      requires Valid()
      requires newNode != null ==> !newNode.deleted
      requires InsertGuards(cur, newNode).Ok? && Nodes != [] ==> cur in Nodes
      modifies this, Nodes, newNode
      ensures Valid()
      ensures r == old(InsertGuards(cur, newNode))
      ensures r.Err? ==> unchanged(this) && unchanged(Nodes) && (newNode != null ==> unchanged(newNode))
      ensures r.Ok? && old(Nodes) == [] ==>
        Nodes == [newNode] && Elements() == [newNode.value] && head == newNode && tail == newNode
      ensures r.Ok? && old(Nodes) != [] ==>
        && Nodes == InsertAt(old(Nodes), IndexOf(old(Nodes), cur), newNode)
        && Elements() == InsertAt(old(Elements()), IndexOf(old(Nodes), cur), newNode.value)
        && head == (if cur == old(head) then newNode else old(head))
        && tail == old(tail)
    {
      if head != null && cur == null { return Err(NullAnchor); }
      if newNode == null { return Err(NullNewNode); }
      if newNode == cur { return Err(SelfInsertion); }
      if newNode.prev != null || newNode.next != null { return Err(AlreadyLinked); }
      if checked && head != null {
        var found := Contains(cur);
        if !found { return Err(AnchorNotInList); }
      }

      LinkBefore(cur, newNode);
      return Ok;
    }

    /** The linking cases of insertBefore, once its guards have passed: the
        empty list, the anchor at the head end, an anchor in the middle. */
    method LinkBefore(cur: Node?, newNode: Node)
      requires Valid() && !newNode.deleted && newNode != cur
      requires newNode.prev == null && newNode.next == null
      requires Nodes != [] ==> cur in Nodes
      modifies this, Nodes, newNode
      ensures Valid()
      ensures old(Nodes) == [] ==>
        Nodes == [newNode] && Elements() == [newNode.value] && head == newNode && tail == newNode
      ensures old(Nodes) != [] ==>
        && Nodes == InsertAt(old(Nodes), IndexOf(old(Nodes), cur), newNode)
        && Elements() == InsertAt(old(Elements()), IndexOf(old(Nodes), cur), newNode.value)
        && head == (if cur == old(head) then newNode else old(head))
        && tail == old(tail)
    {
      ghost var ns := Nodes;
      if head == null {
        LinkFirst(newNode);
        MapAt<Node, string>(ValueOf, Nodes, 0);
        return;
      }
      DetachedNodeIsForeign(cur, newNode);
      ghost var k := IndexOf(ns, cur);
      MapInsertAt<Node, string>(ValueOf, ns, k, newNode);
      if cur == head {
        LinkAtHead(newNode);
        assert ns[k..] == ns;
        return;
      }
      assert cur.prev == ns[k - 1];
      var pred := cur.prev;
      LinkBetween(pred, cur, newNode, k);
      return;
    }

    /** The empty-list case of every insertion: the node becomes both ends. */
    method LinkFirst(n: Node)
      requires Valid() && Nodes == [] && !n.deleted
      requires n.prev == null && n.next == null
      modifies this
      ensures Valid()
      ensures Nodes == [n] && head == n && tail == n
    {
      head, tail := n, n;
      size := size + 1;
      Nodes := [n];
    }

    /** insertAfter at the tail: the node becomes the new tail. */
    method LinkAtTail(n: Node)
      requires Valid() && Nodes != [] && n !in Nodes && !n.deleted
      modifies this, Nodes, n
      ensures Valid()
      ensures Nodes == old(Nodes) + [n] && head == old(head) && tail == n
    {
      ghost var ns := Nodes;
      tail.next := n;
      n.prev := tail;
      n.next := null;
      tail := n;
      size := size + 1;
      Nodes := ns + [n];
      forall i | 0 <= i < |Nodes|
        ensures Nodes[i].prev == if i == 0 then null else Nodes[i - 1]
        ensures Nodes[i].next == if i == |Nodes| - 1 then null else Nodes[i + 1]
      {
        if i < |ns| {
          assert Nodes[i] == ns[i];
          assert i > 0 ==> Nodes[i - 1] == ns[i - 1];
          assert i < |ns| - 1 ==> Nodes[i + 1] == ns[i + 1];
        }
      }
    }

    /** insertBefore at the head: the node becomes the new head. */
    method LinkAtHead(n: Node)
      requires Valid() && Nodes != [] && n !in Nodes && !n.deleted
      modifies this, Nodes, n
      ensures Valid()
      ensures Nodes == [n] + old(Nodes) && head == n && tail == old(tail)
    {
      ghost var ns := Nodes;
      n.next := head;
      n.prev := null;
      head.prev := n;
      head := n;
      size := size + 1;
      Nodes := [n] + ns;
      forall i | 0 <= i < |Nodes|
        ensures Nodes[i].prev == if i == 0 then null else Nodes[i - 1]
        ensures Nodes[i].next == if i == |Nodes| - 1 then null else Nodes[i + 1]
      {
        if i > 0 {
          assert Nodes[i] == ns[i - 1];
          assert i > 1 ==> Nodes[i - 1] == ns[i - 2];
          assert i < |Nodes| - 1 ==> Nodes[i + 1] == ns[i];
        }
      }
    }

    /** The middle case of both insertions: `n` goes between the adjacent
        nodes `pred` and `succ`, at position `k`. */
    method LinkBetween(pred: Node, succ: Node, n: Node, ghost k: nat)
      requires Valid() && 0 < k < |Nodes| && Nodes[k - 1] == pred && Nodes[k] == succ
      requires n !in Nodes && !n.deleted
      modifies this, Nodes, n
      ensures Valid()
      ensures Nodes == InsertAt(old(Nodes), k, n) && head == old(head) && tail == old(tail)
    {
      ghost var ns := Nodes;
      InsertAtProperties(ns, k, n);
      InsertAtKeepsDistinct(ns, k, n);
      n.prev := pred;
      n.next := succ;
      pred.next := n;
      succ.prev := n;
      size := size + 1;
      Nodes := InsertAt(ns, k, n);
      forall i | 0 <= i < |Nodes|
        ensures Nodes[i].prev == if i == 0 then null else Nodes[i - 1]
        ensures Nodes[i].next == if i == |Nodes| - 1 then null else Nodes[i + 1]
      {
        if i < k {
          assert Nodes[i] == ns[i];
          assert i > 0 ==> Nodes[i - 1] == ns[i - 1];
          assert i < k - 1 ==> Nodes[i + 1] == ns[i + 1];
        } else if i > k {
          assert Nodes[i] == ns[i - 1];
          assert i > k + 1 ==> Nodes[i - 1] == ns[i - 2];
          assert i < |Nodes| - 1 ==> Nodes[i + 1] == ns[i];
        }
      }
    }

    /** Unlinks `target` and deletes it. */
    method Remove(target: Node?) returns (r: Outcome)
      requires Valid()
      requires RemoveGuards(target).Ok? ==> target in Nodes
      modifies this, Nodes
      ensures Valid()
      ensures r == old(RemoveGuards(target))
      ensures r.Err? ==> unchanged(this) && unchanged(Nodes)
      ensures r.Ok? ==>
        && Nodes == RemoveAt(old(Nodes), IndexOf(old(Nodes), target))
        && Elements() == RemoveAt(old(Elements()), IndexOf(old(Nodes), target))
        && target.prev == null && target.next == null
        && target.deleted
    {
      if target == null { return Err(NullTarget); }
      if head == null { return Err(EmptyList); }
      if checked {
        var found := Contains(target);
        if !found { return Err(TargetNotInList); }
      }
      Unlink(target);
      MarkDeleted(target);
      return Ok;
    }

    /** Marks an unlinked node as deleted; the list itself is untouched. */
    ghost method MarkDeleted(target: Node)
      requires Valid() && target !in Nodes
      modifies target`deleted
      ensures Valid() && target.deleted
    {
      target.deleted := true;
    }

    /** Unlinks `target` without deleting it: the caller owns it again. */
    method Detach(target: Node?) returns (r: Outcome)
      requires Valid()
      requires RemoveGuards(target).Ok? ==> target in Nodes
      modifies this, Nodes
      ensures Valid()
      ensures r == old(RemoveGuards(target))
      ensures r.Err? ==> unchanged(this) && unchanged(Nodes)
      ensures r.Ok? ==>
        && Nodes == RemoveAt(old(Nodes), IndexOf(old(Nodes), target))
        && Elements() == RemoveAt(old(Elements()), IndexOf(old(Nodes), target))
        && target.prev == null && target.next == null
        && !target.deleted
    {
      if target == null { return Err(NullTarget); }
      if head == null { return Err(EmptyList); }
      if checked {
        var found := Contains(target);
        if !found { return Err(TargetNotInList); }
      }
      Unlink(target);
      return Ok;
    }

    /** The splice shared by remove and detach: fix the predecessor or move
        `head`, fix the successor or move `tail`, scrub the target's links.
        The source's two independent null tests are taken here as their four
        combinations, one helper each. */
    method Unlink(target: Node)
      requires Valid() && target in Nodes
      modifies this, Nodes
      ensures Valid()
      ensures Nodes == RemoveAt(old(Nodes), IndexOf(old(Nodes), target))
      ensures Elements() == RemoveAt(old(Elements()), IndexOf(old(Nodes), target))
      ensures target.prev == null && target.next == null && !target.deleted && target !in Nodes
    {
      ghost var ns := Nodes;
      ghost var k := IndexOf(ns, target);
      MapRemoveAt<Node, string>(ValueOf, ns, k);
      RemoveAtKeepsDistinct(ns, k);
      assert target.prev == if k == 0 then null else ns[k - 1];
      assert target.next == if k == |ns| - 1 then null else ns[k + 1];
      if target.prev != null && target.next != null {
        UnlinkInner(target, k);
      } else if target.prev != null {
        UnlinkLast(target, k);
      } else if target.next != null {
        UnlinkFirst(target);
      } else {
        UnlinkOnly(target);
      }
    }

    /** Both neighbours present: they are linked to each other. */
    method UnlinkInner(target: Node, ghost k: nat)
      requires Valid() && 0 < k < |Nodes| - 1 && Nodes[k] == target
      modifies this, Nodes
      ensures Valid()
      ensures Nodes == RemoveAt(old(Nodes), k) && head == old(head) && tail == old(tail)
      ensures target.prev == null && target.next == null && !target.deleted
    {
      ghost var ns := Nodes;
      RemoveAtProperties(ns, k);
      RemoveAtKeepsDistinct(ns, k);
      assert target.prev == ns[k - 1] && target.next == ns[k + 1];
      target.prev.next := target.next;
      target.next.prev := target.prev;
      target.prev := null;
      target.next := null;
      size := size - 1;
      Nodes := RemoveAt(ns, k);
      forall i | 0 <= i < |Nodes|
        ensures Nodes[i].prev == if i == 0 then null else Nodes[i - 1]
        ensures Nodes[i].next == if i == |Nodes| - 1 then null else Nodes[i + 1]
      {
        if i < k {
          assert Nodes[i] == ns[i];
          assert i > 0 ==> Nodes[i - 1] == ns[i - 1];
          assert i < k - 1 ==> Nodes[i + 1] == ns[i + 1];
        } else {
          assert Nodes[i] == ns[i + 1];
          assert i > k ==> Nodes[i - 1] == ns[i];
          assert i == k ==> Nodes[i - 1] == ns[k - 1];
          assert i < |Nodes| - 1 ==> Nodes[i + 1] == ns[i + 2];
        }
      }
    }

    /** The target is the tail of a longer list: its predecessor becomes the tail. */
    method UnlinkLast(target: Node, ghost k: nat)
      requires Valid() && 0 < k == |Nodes| - 1 && Nodes[k] == target
      modifies this, Nodes
      ensures Valid()
      ensures Nodes == RemoveAt(old(Nodes), k) && head == old(head)
      ensures target.prev == null && target.next == null && !target.deleted
    {
      ghost var ns := Nodes;
      RemoveAtProperties(ns, k);
      RemoveAtKeepsDistinct(ns, k);
      assert target.prev == ns[k - 1] && target.next == null;
      target.prev.next := target.next;
      tail := target.prev;
      target.prev := null;
      target.next := null;
      size := size - 1;
      Nodes := RemoveAt(ns, k);
      forall i | 0 <= i < |Nodes|
        ensures Nodes[i].prev == if i == 0 then null else Nodes[i - 1]
        ensures Nodes[i].next == if i == |Nodes| - 1 then null else Nodes[i + 1]
      {
        assert Nodes[i] == ns[i];
        assert i > 0 ==> Nodes[i - 1] == ns[i - 1];
        assert i < k - 1 ==> Nodes[i + 1] == ns[i + 1];
      }
    }

    /** The target is the head of a longer list: its successor becomes the head. */
    method UnlinkFirst(target: Node)
      requires Valid() && 1 < |Nodes| && Nodes[0] == target
      modifies this, Nodes
      ensures Valid()
      ensures Nodes == RemoveAt(old(Nodes), 0) && tail == old(tail)
      ensures target.prev == null && target.next == null && !target.deleted
    {
      ghost var ns := Nodes;
      RemoveAtProperties(ns, 0);
      RemoveAtKeepsDistinct(ns, 0);
      assert target.prev == null && target.next == ns[1];
      head := target.next;
      target.next.prev := target.prev;
      target.prev := null;
      target.next := null;
      size := size - 1;
      Nodes := RemoveAt(ns, 0);
      forall i | 0 <= i < |Nodes|
        ensures Nodes[i].prev == if i == 0 then null else Nodes[i - 1]
        ensures Nodes[i].next == if i == |Nodes| - 1 then null else Nodes[i + 1]
      {
        assert Nodes[i] == ns[i + 1];
        assert i > 0 ==> Nodes[i - 1] == ns[i];
        assert i < |Nodes| - 1 ==> Nodes[i + 1] == ns[i + 2];
      }
    }

    /** The target is the only node: both ends become null. */
    method UnlinkOnly(target: Node)
      requires Valid() && Nodes == [target]
      modifies this, Nodes
      ensures Valid()
      ensures Nodes == [] && head == null && tail == null
      ensures target.prev == null && target.next == null && !target.deleted
    {
      head := target.next;
      tail := target.prev;
      target.prev := null;
      target.next := null;
      size := size - 1;
      Nodes := [];
    }

    /** Walks `next` from `head`, scrubbing each node's links before
        deleting it, then empties the list. */
    method Clear()
      requires Valid()
      modifies this, Nodes
      ensures Valid() && Nodes == []
      ensures forall n :: n in old(Nodes) ==> n.prev == null && n.next == null && n.deleted
    {
      ghost var ns := Nodes;
      var cur := head;
      ghost var i := 0;
      while cur != null
        invariant 0 <= i <= |ns| && Nodes == ns
        invariant forall j {:trigger ns[j].prev} :: 0 <= j < i ==> ns[j].prev == null
        invariant forall j {:trigger ns[j].deleted} :: 0 <= j < i ==> ns[j].deleted
        invariant forall j {:trigger ns[j].next} :: 0 <= j < i ==> ns[j].next == null
        invariant forall j {:trigger ns[j].next} :: i <= j < |ns| ==>
                    ns[j].next == if j == |ns| - 1 then null else ns[j + 1]
        invariant cur == if i < |ns| then ns[i] else null
        decreases |ns| - i
      {
        var next := cur.next;
        cur.prev := null;
        cur.next := null;
        cur.deleted := true;
        cur := next;
        i := i + 1;
      }
      head, tail, size := null, null, 0;
      Nodes := [];
    }

    /** The first node from `head` whose value equals `v`, or null. */
    method Find(v: string) returns (r: Node?)
      requires Valid()
      ensures v in Elements() ==> r == Nodes[IndexOf(Elements(), v)]
      ensures v !in Elements() ==> r == null
    {
      var cur := head;
      ghost var i := 0;
      while cur != null
        invariant 0 <= i <= |Nodes|
        invariant cur == if i < |Nodes| then Nodes[i] else null
        invariant v !in Elements()[..i]
        decreases |Nodes| - i
      {
        MapAt<Node, string>(ValueOf, Nodes, i);
        if cur.value == v {
          return cur;
        }
        assert Elements()[..i + 1] == Elements()[..i] + [Elements()[i]];
        cur := cur.next;
        i := i + 1;
      }
      assert Elements()[..i] == Elements();
      return null;
    }

    /** The values printForward writes, in the order it writes them. */
    method ForwardValues() returns (vs: seq<string>)
      requires Valid()
      ensures vs == Elements()
    {
      vs := [];
      var cur := head;
      while cur != null
        invariant |vs| <= |Nodes|
        invariant cur == if |vs| < |Nodes| then Nodes[|vs|] else null
        invariant vs == Elements()[..|vs|]
        decreases |Nodes| - |vs|
      {
        MapAt<Node, string>(ValueOf, Nodes, |vs|);
        assert Elements()[..|vs| + 1] == Elements()[..|vs|] + [cur.value];
        vs := vs + [cur.value];
        cur := cur.next;
      }
    }

    /** The values printBackward writes: the walk follows `prev` from `tail`. */
    method BackwardValues() returns (vs: seq<string>)
      requires Valid()
      ensures vs == Reversed(Elements())
    {
      vs := [];
      var cur := tail;
      while cur != null
        invariant |vs| <= |Nodes|
        invariant cur == if |vs| < |Nodes| then Nodes[|Nodes| - 1 - |vs|] else null
        invariant vs == Reversed(Elements())[..|vs|]
        decreases |Nodes| - |vs|
      {
        MapAt<Node, string>(ValueOf, Nodes, |Nodes| - 1 - |vs|);
        assert Reversed(Elements())[..|vs| + 1] == Reversed(Elements())[..|vs|] + [cur.value];
        vs := vs + [cur.value];
        cur := cur.prev;
      }
    }
  }

  /** The debug `sanity` check: the forward and the backward walk each count
      `size()` nodes, an empty list has no ends, a non-empty one has open
      ends. On a valid list none of its assertions can fail. */
  method Sanity(list: DoublyLinkedList) returns (ok: bool)
    requires list.Valid()
    ensures ok
  {
    var f := 0;
    var p := list.head;
    while p != null
      invariant f <= |list.Nodes|
      invariant p == if f < |list.Nodes| then list.Nodes[f] else null
      decreases |list.Nodes| - f
    {
      f := f + 1;
      p := p.next;
    }
    var b := 0;
    p := list.tail;
    while p != null
      invariant b <= |list.Nodes|
      invariant p == if b < |list.Nodes| then list.Nodes[|list.Nodes| - 1 - b] else null
      decreases |list.Nodes| - b
    {
      b := b + 1;
      p := p.prev;
    }
    ok := f == list.Size() && b == list.Size();
    if list.IsEmpty() {
      ok := ok && list.head == null && list.tail == null;
    } else {
      ok := ok && list.head.prev == null && list.tail.next == null;
    }
  }

  /** The insertions of the console demo: "A" into the empty list (the
      anchor is null), then "B" after "A", then "C" after "A". A checked build
      runs `sanity` after each insertion; each insertion ensures `Valid()`,
      on which `Sanity` returns true, so those calls are not repeated here. */
  method MainInsertions(checks: bool) returns (list: DoublyLinkedList)
    ensures list.Valid() && list.Elements() == ["A", "C", "B"]
  {
    list := new DoublyLinkedList(checks);
    var a := new Node("A");
    var b := new Node("B");
    var c := new Node("C");
    var r := list.InsertAfter(null, a);
    assert list.Nodes == [a];
    IndexOfDistinct(list.Nodes, 0);
    assert list.InsertGuards(a, b) == Ok;
    r := list.InsertAfter(a, b);
    assert list.Nodes == [a, b] && list.Elements() == ["A", "B"] by {
      assert InsertAt([a], 1, b) == [a, b];
      assert InsertAt(["A"], 1, "B") == ["A", "B"];
    }
    IndexOfDistinct(list.Nodes, 0);
    assert list.InsertGuards(a, c) == Ok;
    r := list.InsertAfter(a, c);
    assert InsertAt(["A", "B"], 1, "C") == ["A", "C", "B"];
  }

  /** The console demo: after the insertions the forward walk prints A, C, B
      and the backward walk B, C, A. */
  method MainScenario(checks: bool) returns (forward: seq<string>, backward: seq<string>)
    ensures forward == ["A", "C", "B"] && backward == ["B", "C", "A"]
  {
    var list := MainInsertions(checks);
    forward := list.ForwardValues();
    backward := list.BackwardValues();
    assert Reversed(["A", "C", "B"]) == ["B", "C", "A"];
  }
}
