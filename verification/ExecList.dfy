/**
 The intrusive doubly linked list of src/compiler/list.h.  A list owns two sentinel nodes; the
 ghost field `nodes` is the sequence it represents, and `Valid` is the invariant that
 exec_list_validate is meant to check.  Every operation is proved to keep it and to be the
 matching operation on sequences.
 */
module ExecLists {

  class Node {
    var next: Node?
    var prev: Node?

    /** exec_node_init */
    constructor ()
      ensures next == null && prev == null
    {
      next, prev := null, null;
    }
  }

  ghost predicate Distinct(c: seq<Node>) {
    forall i, j :: 0 <= i < j < |c| ==> c[i] != c[j]
  }

  /** Neighbours in `c` point at each other. */
  ghost predicate Linked(c: seq<Node>)
    reads c
  {
    forall i, j :: 0 <= i && j == i + 1 && j < |c| ==> c[i].next == c[j] && c[j].prev == c[i]
  }

  /** `c` runs from a node without predecessor to a node without successor. */
  ghost predicate Closed(c: seq<Node>)
    reads c
  {
    |c| > 0 && c[0].prev == null && c[|c| - 1].next == null
  }

  /** Links alone force the nodes apart: a repeated node would never reach the end. */
  lemma {:induction false} LinkedIsDistinct(c: seq<Node>, i: nat, j: nat)
    requires Linked(c) && Closed(c) && i < j < |c|
    ensures c[i] != c[j]
    decreases |c| - j
  {
    if j + 1 < |c| {
      LinkedIsDistinct(c, i + 1, j + 1);
      assert c[i].next == c[i + 1] && c[j].next == c[j + 1];
    } else {
      assert c[i].next == c[i + 1];
    }
  }

  lemma ChainIsDistinct(c: seq<Node>)
    requires Linked(c) && Closed(c)
    ensures Distinct(c)
  {
    forall i, j | 0 <= i < j < |c| ensures c[i] != c[j] { LinkedIsDistinct(c, i, j); }
  }

  class ExecList {
    const head: Node
    const tail: Node
    ghost var nodes: seq<Node>

    ghost function Chain(): (c: seq<Node>)
      reads this
    {
      [head] + nodes + [tail]
    }

    /** Linked both ways from head to tail; that no node repeats follows. */
    ghost predicate Valid()
      reads this, Chain()
    {
      Linked(Chain()) && Closed(Chain())
    }

    /** exec_list_make_empty on a fresh list */
    constructor ()
      ensures Valid() && nodes == [] && fresh(head) && fresh(tail)
    {
      var h := new Node();
      var t := new Node();
      h.next, t.prev := t, h;
      head, tail := h, t;
      nodes := [];
    }

    /** exec_list_make_empty: whatever the sentinels pointed at before. */
    method MakeEmpty()
      requires head != tail
      modifies this, head, tail
      ensures Valid() && nodes == []
    {
      head.next := tail;
      head.prev := null;
      tail.next := null;
      tail.prev := head;
      nodes := [];
    }

    method IsEmpty() returns (r: bool)
      requires Valid()
      ensures r <==> nodes == []
    {
      ChainIsDistinct(Chain());
      assert Chain()[1] == if nodes == [] then tail else nodes[0];
      assert head.next == Chain()[1];
      assert nodes != [] ==> tail != nodes[0] by { assert Chain()[|nodes| + 1] == tail; }
      r := head.next == tail;
    }

    method GetHead() returns (r: Node?)
      requires Valid()
      ensures r == if nodes == [] then null else nodes[0]
    {
      var empty := IsEmpty();
      assert head.next == Chain()[1];
      r := if !empty then head.next else null;
    }

    /** exec_list_length: the walk ends, after as many steps as there are nodes. */
    method Length() returns (size: nat)
      requires Valid()
      ensures size == |nodes|
    {
      size := 0;
      ghost var c := Chain();
      assert head.next == c[1];
      var node := head.next;
      while node.next != null
        invariant size <= |nodes| && node == c[size + 1]
        invariant node.next == if size < |nodes| then c[size + 2] else null
        decreases |nodes| - size
      {
        assert size < |nodes| ==> node.next == c[size + 2];
        assert size == |nodes| ==> node == tail;
        node := node.next;
        size := size + 1;
      }
      assert c[|nodes| + 1] == tail;
    }

    /** exec_list_push_head */
    method PushHead(n: Node)
      requires Valid() && n !in Chain()
      modifies this, n, Chain()
      ensures Valid() && nodes == [n] + old(nodes)
    {
      ghost var c := Chain();
      ChainIsDistinct(c);
      assert c[0].next == c[1];
      n.next := head.next;
      n.prev := head;
      n.next.prev := n;
      head.next := n;
      nodes := [n] + nodes;
      assert Chain() == Spliced(c, 0, [n]);
      SplicedLinked(c, 0, [n]);
      SplicedClosed(c, 0, [n]);
    }

    /** exec_list_push_tail */
    method PushTail(n: Node)
      requires Valid() && n !in Chain()
      modifies this, n, Chain()
      ensures Valid() && nodes == old(nodes) + [n]
    {
      ghost var c, k := Chain(), |nodes|;
      ChainIsDistinct(c);
      assert c[k + 1].prev == c[k];
      n.next := tail;
      n.prev := tail.prev;
      n.prev.next := n;
      tail.prev := n;
      nodes := nodes + [n];
      assert Chain() == Spliced(c, k, [n]);
      SplicedLinked(c, k, [n]);
      SplicedClosed(c, k, [n]);
    }

    /** exec_list_pop_head */
    method PopHead() returns (n: Node?)
      requires Valid()
      modifies this, Chain()
      ensures Valid()
      ensures old(nodes) == [] ==> n == null && nodes == []
      ensures old(nodes) != [] ==> n == old(nodes)[0] && nodes == old(nodes)[1..] && n.next == null && n.prev == null
    {
      n := GetHead();
      if n != null {
        Remove(this, n, 1);
      }
    }
  }

  /** `c` with `x` put in after position `k`. */
  ghost function Spliced(c: seq<Node>, k: nat, x: seq<Node>): (r: seq<Node>)
    requires k < |c|
  {
    c[..k + 1] + x + c[k + 1..]
  }

  lemma SplicedAt(c: seq<Node>, k: nat, x: seq<Node>, i: nat)
    requires k < |c| && i < |c| + |x|
    ensures |Spliced(c, k, x)| == |c| + |x|
    ensures Spliced(c, k, x)[i] == if i <= k then c[i] else if i <= k + |x| then x[i - k - 1] else c[i - |x|]
  {
  }

  /** Consecutive nodes of `c` are linked, except across the gap after position `k`. */
  ghost predicate LinkedBut(c: seq<Node>, k: nat)
    reads c
  {
    forall i, j :: 0 <= i && j == i + 1 && j < |c| && i != k ==> c[i].next == c[j] && c[j].prev == c[i]
  }

  /** A linked piece tied in at both ends fills the gap. */
  lemma SplicedLinked(c: seq<Node>, k: nat, x: seq<Node>)
    requires k + 1 < |c| && x != [] && LinkedBut(c, k) && Linked(x)
    requires c[k].next == x[0] && x[0].prev == c[k] && x[|x| - 1].next == c[k + 1] && c[k + 1].prev == x[|x| - 1]
    ensures Linked(Spliced(c, k, x))
  {
    var d := Spliced(c, k, x);
    forall i, j | 0 <= i && j == i + 1 && j < |d| ensures d[i].next == d[j] && d[j].prev == d[i] {
      SplicedAt(c, k, x, i);
      SplicedAt(c, k, x, j);
    }
  }

  /** Splicing the represented sequence is splicing the chain. */
  lemma ChainSpliced(h: Node, nodes: seq<Node>, t: Node, k: nat, x: seq<Node>)
    requires k <= |nodes|
    ensures [h] + (nodes[..k] + x + nodes[k..]) + [t] == Spliced([h] + nodes + [t], k, x)
  {
  }

  lemma SplicedClosed(c: seq<Node>, k: nat, x: seq<Node>)
    requires k + 1 < |c| && Closed(c)
    ensures Closed(Spliced(c, k, x))
  {
    SplicedAt(c, k, x, 0);
    SplicedAt(c, k, x, |c| + |x| - 1);
  }

  lemma SplicedMembers(c: seq<Node>, k: nat, x: seq<Node>, n: Node)
    requires k < |c| && n !in c && n !in x
    ensures n !in Spliced(c, k, x)
  {
  }

  /** exec_node_insert_after, `n` being the node or head sentinel at position `k` of the chain. */
  method InsertAfter(list: ExecList, n: Node, after: Node, ghost k: nat)
    requires list.Valid() && k <= |list.nodes| && list.Chain()[k] == n && after !in list.Chain()
    modifies list, after, list.Chain()
    ensures list.Valid()
    ensures list.nodes == old(list.nodes)[..k] + [after] + old(list.nodes)[k..]
  {
    ghost var c := list.Chain();
    ChainIsDistinct(c);
    assert c[k].next == c[k + 1];
    after.next := n.next;
    after.prev := n;
    n.next.prev := after;
    n.next := after;
    list.nodes := list.nodes[..k] + [after] + list.nodes[k..];
    assert list.Chain() == Spliced(c, k, [after]);
    SplicedLinked(c, k, [after]);
    SplicedClosed(c, k, [after]);
  }

  /** exec_node_insert_node_before, `n` being the node or tail sentinel at position `k`. */
  method InsertBefore(list: ExecList, n: Node, before: Node, ghost k: nat)
    requires list.Valid() && 1 <= k <= |list.nodes| + 1 && list.Chain()[k] == n && before !in list.Chain()
    modifies list, before, list.Chain()
    ensures list.Valid()
    ensures list.nodes == old(list.nodes)[..k - 1] + [before] + old(list.nodes)[k - 1..]
  {
    ghost var c := list.Chain();
    ChainIsDistinct(c);
    assert c[k].prev == c[k - 1];
    before.next := n;
    before.prev := n.prev;
    n.prev.next := before;
    n.prev := before;
    list.nodes := list.nodes[..k - 1] + [before] + list.nodes[k - 1..];
    assert list.Chain() == Spliced(c, k - 1, [before]);
    SplicedLinked(c, k - 1, [before]);
    SplicedClosed(c, k - 1, [before]);
  }

  /** exec_node_remove, `n` being at position `k` of the chain, sentinels excluded. */
  method Remove(list: ExecList, n: Node, ghost k: nat)
    requires list.Valid() && 1 <= k <= |list.nodes| && list.Chain()[k] == n
    modifies list, list.Chain()
    ensures list.Valid() && n !in list.Chain()
    ensures list.nodes == old(list.nodes)[..k - 1] + old(list.nodes)[k..]
    ensures n.next == null && n.prev == null
  {
    ghost var c := list.Chain();
    ChainIsDistinct(c);
    assert c[k].next == c[k + 1] && c[k].prev == c[k - 1];
    n.next.prev := n.prev;
    n.prev.next := n.next;
    n.next := null;
    n.prev := null;
    list.nodes := list.nodes[..k - 1] + list.nodes[k..];
    assert list.Chain() == c[..k] + c[k + 1..];
  }

  /** No node belongs to both lists, sentinels included. */
  ghost predicate Apart(a: ExecList, b: ExecList)
    reads a, b
  {
    a != b && forall n :: n in a.Chain() ==> n !in b.Chain()
  }

  /** Lists apart from each other share no node, and sentinels are no list's nodes. */
  lemma SentinelsStayOut(list: ExecList, source: ExecList)
    requires source.Valid() && Apart(list, source)
    ensures source.head !in list.Chain() && source.tail !in list.Chain() && source.head != source.tail
    ensures source.head !in source.nodes && source.tail !in source.nodes
    ensures forall n :: n in source.nodes ==> n in source.Chain() && n !in list.Chain()
    ensures forall i, j :: 0 <= i < |list.Chain()| && 0 <= j < |source.nodes| ==> list.Chain()[i] != source.nodes[j]
  {
    var s := source.Chain();
    ChainIsDistinct(s);
    assert s[0] == source.head && s[|s| - 1] == source.tail;
    assert forall i :: 0 <= i < |source.nodes| ==> s[i + 1] == source.nodes[i];
    forall n | n in source.nodes ensures n in s && n !in list.Chain() {
      var i :| 0 <= i < |source.nodes| && source.nodes[i] == n;
      assert s[i + 1] == n;
    }
    forall i, j | 0 <= i < |list.Chain()| && 0 <= j < |source.nodes| ensures list.Chain()[i] != source.nodes[j] {
      assert source.nodes[j] in source.nodes && list.Chain()[i] in list.Chain();
    }
  }

  /** The nodes between the sentinels. */
  lemma InnerNodes(list: ExecList)
    requires list.Valid() && list.nodes != []
    ensures Linked(list.nodes) && Distinct(list.nodes)
    ensures list.head.next == list.nodes[0] && list.tail.prev == list.nodes[|list.nodes| - 1]
  {
    var s, x := list.Chain(), list.nodes;
    ChainIsDistinct(s);
    assert forall i :: 0 <= i < |x| ==> x[i] == s[i + 1];
    assert s[0].next == s[1] && s[|x| + 1].prev == s[|x|];
  }

  /** The nodes `x` are linked in after position `k` of the chain `c`. */
  ghost predicate Joined(c: seq<Node>, k: nat, x: seq<Node>)
    reads c, x
  {
    && k + 1 < |c| && x != [] && Closed(c) && LinkedBut(c, k) && Linked(x)
    && c[k].next == x[0] && x[0].prev == c[k] && x[|x| - 1].next == c[k + 1] && c[k + 1].prev == x[|x| - 1]
  }

  /** With the nodes linked in, the list represents them too. */
  method TakeIn(list: ExecList, source: ExecList, ghost k: nat)
    requires k <= |list.nodes| && Joined(list.Chain(), k, source.nodes) && list != source
    requires source.head !in list.Chain() && source.tail !in list.Chain()
    requires source.head !in source.nodes && source.tail !in source.nodes
    modifies list
    ensures list.Valid() && source.head !in list.Chain() && source.tail !in list.Chain()
    ensures list.nodes == old(list.nodes)[..k] + source.nodes + old(list.nodes)[k..]
  {
    ghost var c, x := list.Chain(), source.nodes;
    ChainSpliced(list.head, list.nodes, list.tail, k, x);
    list.nodes := list.nodes[..k] + x + list.nodes[k..];
    SplicedMembers(c, k, x, source.head);
    SplicedMembers(c, k, x, source.tail);
    SplicedLinked(c, k, x);
    SplicedClosed(c, k, x);
  }

  /** The link changes of exec_node_insert_list_after. */
  method LinkAfter(list: ExecList, n: Node, source: ExecList, ghost k: nat)
    requires list.Valid() && source.Valid() && Apart(list, source) && source.nodes != []
    requires k <= |list.nodes| && list.Chain()[k] == n
    modifies list.Chain(), source.Chain()
    ensures Joined(list.Chain(), k, source.nodes)
  {
    ghost var c, s, x := list.Chain(), source.Chain(), source.nodes;
    ghost var m := |source.nodes|;
    ChainIsDistinct(c);
    InnerNodes(source);
    SentinelsStayOut(list, source);
    assert c[k].next == c[k + 1] && x[0] == s[1] && x[m - 1] == s[m];
    source.tail.prev.next := n.next;
    source.head.next.prev := n;
    n.next.prev := source.tail.prev;
    n.next := source.head.next;
    forall i, j | 0 <= i && j == i + 1 && j < m ensures x[i].next == x[j] && x[j].prev == x[i] {
      assert old(x[i].next) == x[j] && old(x[j].prev) == x[i] && x[i] != x[m - 1] && x[j] != x[0];
    }
    forall i, j | 0 <= i && j == i + 1 && j < |c| && i != k ensures c[i].next == c[j] && c[j].prev == c[i] {
      assert old(c[i].next) == c[j] && old(c[j].prev) == c[i] && c[i] != c[k] && c[j] != c[k + 1];
    }
  }

  method SpliceAfter(list: ExecList, n: Node, source: ExecList, ghost k: nat)
    requires list.Valid() && source.Valid() && Apart(list, source) && source.nodes != []
    requires k <= |list.nodes| && list.Chain()[k] == n
    modifies list, list.Chain(), source.Chain()
    ensures list.Valid() && source.head !in list.Chain() && source.tail !in list.Chain()
    ensures list.nodes == old(list.nodes)[..k] + source.nodes + old(list.nodes)[k..]
  {
    SentinelsStayOut(list, source);
    LinkAfter(list, n, source, k);
    TakeIn(list, source, k);
  }

  /** exec_node_insert_list_after: splices all of `source` in after position `k` and empties it. */
  method InsertListAfter(list: ExecList, n: Node, source: ExecList, ghost k: nat)
    requires list.Valid() && source.Valid() && Apart(list, source)
    requires k <= |list.nodes| && list.Chain()[k] == n
    modifies list, source, list.Chain(), source.Chain()
    ensures list.Valid() && source.Valid() && Apart(list, source)
    ensures list.nodes == old(list.nodes)[..k] + old(source.nodes) + old(list.nodes)[k..]
    ensures source.nodes == []
  {
    var empty := source.IsEmpty();
    if empty {
      assert list.nodes == list.nodes[..k] + [] + list.nodes[k..];
    } else {
      SentinelsStayOut(list, source);
      SpliceAfter(list, n, source, k);
      source.MakeEmpty();
    }
  }

  /** The link changes of exec_list_append. */
  method LinkTail(list: ExecList, source: ExecList)
    requires list.Valid() && source.Valid() && Apart(list, source) && source.nodes != []
    modifies list.Chain(), source.Chain()
    ensures Joined(list.Chain(), |list.nodes|, source.nodes)
  {
    ghost var c, s, x := list.Chain(), source.Chain(), source.nodes;
    ghost var k, m := |list.nodes|, |source.nodes|;
    ChainIsDistinct(c);
    InnerNodes(source);
    SentinelsStayOut(list, source);
    assert c[k + 1].prev == c[k] && x[0] == s[1] && x[m - 1] == s[m];
    list.tail.prev.next := source.head.next;
    source.head.next.prev := list.tail.prev;
    list.tail.prev := source.tail.prev;
    list.tail.prev.next := list.tail;
    forall i, j | 0 <= i && j == i + 1 && j < m ensures x[i].next == x[j] && x[j].prev == x[i] {
      assert old(x[i].next) == x[j] && old(x[j].prev) == x[i] && x[i] != x[m - 1] && x[j] != x[0];
    }
    forall i, j | 0 <= i && j == i + 1 && j < |c| && i != k ensures c[i].next == c[j] && c[j].prev == c[i] {
      assert old(c[i].next) == c[j] && old(c[j].prev) == c[i] && c[i] != c[k] && c[j] != c[k + 1];
    }
  }

  method SpliceTail(list: ExecList, source: ExecList)
    requires list.Valid() && source.Valid() && Apart(list, source) && source.nodes != []
    modifies list, list.Chain(), source.Chain()
    ensures list.Valid() && source.head !in list.Chain() && source.tail !in list.Chain()
    ensures list.nodes == old(list.nodes) + source.nodes
  {
    ghost var before := list.nodes;
    SentinelsStayOut(list, source);
    LinkTail(list, source);
    TakeIn(list, source, |before|);
    assert before[..|before|] + source.nodes + before[|before|..] == before + source.nodes;
  }

  /** exec_list_append */
  method Append(list: ExecList, source: ExecList)
    requires list.Valid() && source.Valid() && Apart(list, source)
    modifies list, source, list.Chain(), source.Chain()
    ensures list.Valid() && source.Valid() && Apart(list, source)
    ensures list.nodes == old(list.nodes) + old(source.nodes)
    ensures source.nodes == []
  {
    var empty := source.IsEmpty();
    if !empty {
      SentinelsStayOut(list, source);
      SpliceTail(list, source);
      source.MakeEmpty();
    }
  }

  /** The link changes of exec_list_move_nodes_to for a list that is not empty. */
  method TakeNodes(list: ExecList, target: ExecList)
    requires list.Valid() && list.nodes != [] && list != target && target.head != target.tail
    requires target.head !in list.Chain() && target.tail !in list.Chain()
    modifies target, list.Chain(), target.head, target.tail
    ensures target.Valid() && target.nodes == list.nodes
  {
    ghost var c := list.Chain();
    ChainIsDistinct(c);
    ghost var m := |list.nodes|;
    assert c[0].next == c[1] && c[m + 1].prev == c[m];
    target.head.next := list.head.next;
    target.head.prev := null;
    target.tail.next := null;
    target.tail.prev := list.tail.prev;
    target.head.next.prev := target.head;
    target.tail.prev.next := target.tail;
    target.nodes := list.nodes;
    ghost var d := target.Chain();
    assert |d| == |c| && forall i :: 1 <= i <= m ==> d[i] == c[i];
    forall i, j | 0 <= i < j < |d| ensures d[i] != d[j] {
      assert 1 <= i <= m ==> d[i] in c;
      assert 1 <= j <= m ==> d[j] in c;
    }
    forall i, j | 0 <= i && j == i + 1 && j < |d| ensures d[i].next == d[j] && d[j].prev == d[i] {
    }
  }

  /** exec_list_move_nodes_to: what `target` held before is forgotten. */
  method MoveNodesTo(list: ExecList, target: ExecList)
    requires list.Valid() && list != target && target.head != target.tail
    requires target.head !in list.Chain() && target.tail !in list.Chain()
    modifies list, target, list.Chain(), target.head, target.tail
    ensures list.Valid() && target.Valid() && Apart(list, target)
    ensures target.nodes == old(list.nodes) && list.nodes == []
  {
    var empty := list.IsEmpty();
    if empty {
      target.MakeEmpty();
    } else {
      ChainIsDistinct(list.Chain());
      OwnSentinels(list);
      TakeNodes(list, target);
      list.MakeEmpty();
    }
  }

  lemma OwnSentinels(list: ExecList)
    requires Distinct(list.Chain())
    ensures list.head !in list.nodes && list.tail !in list.nodes && list.head != list.tail
  {
    var c := list.Chain();
    assert c[0] == list.head && c[|c| - 1] == list.tail;
    assert forall i :: 0 <= i < |list.nodes| ==> c[i + 1] == list.nodes[i];
  }

  /** `c` is a proper list from one sentinel to the other. */
  ghost predicate Proper(c: seq<Node>, head: Node, tail: Node)
    reads c
  {
    |c| >= 2 && c[0] == head && c[|c| - 1] == tail && Linked(c) && Closed(c)
  }

  /** A chain agrees with any closed chain from the same node as far as it goes. */
  lemma {:induction false} ChainPrefix(a: seq<Node>, c: seq<Node>)
    requires |a| > 0 && Linked(a) && Linked(c) && Closed(c) && a[0] == c[0]
    ensures |a| <= |c| && a == c[..|a|]
  {
    if |a| > 1 {
      var p := a[..|a| - 1];
      ChainPrefix(p, c);
      var l := |a| - 2;
      assert p[l] == a[l] == c[l] && a[l].next == a[l + 1];
      assert l + 1 < |c| ==> c[l].next == c[l + 1];
    }
  }

  lemma {:induction false} DistinctFits(c: seq<Node>, heap: set<Node>)
    requires Distinct(c) && forall n :: n in c ==> n in heap
    ensures |c| <= |heap|
  {
    if c != [] {
      var last := c[|c| - 1];
      assert last in heap;
      DistinctFits(c[..|c| - 1], heap - {last});
    }
  }

  /** What the asserts of exec_list_validate amount to, `c` being the nodes the loop visits. */
  ghost predicate Walkable(c: seq<Node>, head: Node, tail: Node)
    reads c, tail, tail.prev
  {
    && |c| >= 2 && c[0] == head && Linked(c) && Closed(c)
    && tail.next == null && tail.prev != null && tail.prev.next == tail
  }

  /**
   exec_list_validate on an arbitrary heap: it ends, and it succeeds exactly when a walkable
   chain leaves the head sentinel.
   */
  method Validate(list: ExecList, ghost heap: set<Node>) returns (ok: bool)
    requires list.head in heap && list.tail in heap
    requires forall n :: n in heap ==> (n.next != null ==> n.next in heap) && (n.prev != null ==> n.prev in heap)
    ensures ok <==> exists c: seq<Node> :: Walkable(c, list.head, list.tail)
  {
    ghost var h, t := list.head, list.tail;
    forall c: seq<Node> | Walkable(c, h, t) ensures h.next != null && h.next.prev == h && h.prev == null {
      assert c[0].next == c[1] && c[1].prev == c[0];
    }
    if list.head.next == null || list.head.next.prev != list.head { return false; }
    if list.head.prev != null { return false; }
    if list.tail.next != null { return false; }
    if list.tail.prev == null || list.tail.prev.next != list.tail { return false; }
    var node: Node := list.head.next;
    ghost var walk: seq<Node> := [h, node];
    while node.next != null
      invariant |walk| >= 2 && walk[0] == h && walk[|walk| - 1] == node
      invariant Linked(walk) && Distinct(walk) && forall n :: n in walk ==> n in heap
      decreases |heap| - |walk|
    {
      assert walk[|walk| - 2].next == walk[|walk| - 1] && walk[|walk| - 1].prev == walk[|walk| - 2];
      if node.next.prev != node {
        forall c: seq<Node> ensures !Walkable(c, h, t) { if Walkable(c, h, t) { WalkGoesOn(walk, c); } }
        return false;
      }
      if node.prev == null || node.prev.next != node { return false; }
      assert node in walk && node.next in heap;
      NextIsNew(walk, node.next);
      DistinctFits(walk + [node.next], heap);
      walk := walk + [node.next];
      node := node.next;
    }
    assert Walkable(walk, h, t);
    return true;
  }

  /** Inside a closed chain the next node links back. */
  lemma WalkGoesOn(walk: seq<Node>, c: seq<Node>)
    requires |walk| > 0 && Linked(walk) && Linked(c) && Closed(c) && walk[0] == c[0] && walk[|walk| - 1].next != null
    ensures walk[|walk| - 1].next.prev == walk[|walk| - 1]
  {
    ChainPrefix(walk, c);
    var l := |walk| - 1;
    assert walk[l] == c[l] && c[|c| - 1].next == null;
    var m := l + 1;
    assert m < |c| && c[l].next == c[m] && c[m].prev == c[l];
  }

  /** The check that validation leaves out: the walk has to end at the tail sentinel. */
  lemma ProperIffWalkEndsAtTail(c: seq<Node>, head: Node, tail: Node)
    ensures Proper(c, head, tail) <==> Walkable(c, head, tail) && c[|c| - 1] == tail
  {
    if |c| >= 2 && Linked(c) {
      assert c[|c| - 2].next == c[|c| - 1] && c[|c| - 1].prev == c[|c| - 2];
    }
  }

  /** A node whose predecessor is the end of the walk was not visited before. */
  lemma NextIsNew(walk: seq<Node>, next: Node)
    requires |walk| > 0 && Linked(walk) && Distinct(walk) && walk[0].prev == null
    requires next.prev == walk[|walk| - 1]
    ensures Distinct(walk + [next])
  {
    forall i | 0 <= i < |walk| ensures walk[i] != next {
      if i > 0 { assert walk[i].prev == walk[i - 1] && walk[i - 1] != walk[|walk| - 1]; }
    }
  }

  /** Validation accepts a list whose walk never meets the tail sentinel. */
  method ValidateMissesDetachedTail() returns (list: ExecList, ok: bool)
    ensures ok && exists c: seq<Node> :: Walkable(c, list.head, list.tail) && list.tail !in c
  {
    list := new ExecList();
    var a := new Node();
    var b := new Node();
    list.head.next, a.prev := a, list.head;
    list.tail.prev, b.next := b, list.tail;
    ghost var w: seq<Node> := [list.head, a];
    assert Walkable(w, list.head, list.tail) && list.tail !in w;
    ok := Validate(list, {list.head, list.tail, a, b});
    assert Walkable(w, list.head, list.tail);
  }
}
