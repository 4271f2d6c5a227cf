/**
 * The doubly-linked node utility of lib/node/node.c, as pointer relinking in
 * an arena. Memory is a finite map from node identities to nodes; a NULL link
 * is `None`. Each operation performs the source's field writes in the
 * source's order, so aliasing between its arguments behaves as it does there.
 * What the writes mean for a well-formed list is stated in module NodeChain.
 */
module NodeList {
  import opened Wrappers

  type NodeId = nat

  /** A list cell: `head` links to the previous cell, `tail` to the next. */
  datatype Node<D> = Node(head: Option<NodeId>, tail: Option<NodeId>, data: D)

  type Arena<D> = map<NodeId, Node<D>>

  /** The link is NULL or names a node of the arena. */
  predicate LinkIn<D>(a: Arena<D>, l: Option<NodeId>)
  {
    l.None? || l.value in a
  }

  function SetHead<D>(a: Arena<D>, x: NodeId, l: Option<NodeId>): (r: Arena<D>)
    requires x in a
  {
    a[x := a[x].(head := l)]
  }

  function SetTail<D>(a: Arena<D>, x: NodeId, l: Option<NodeId>): (r: Arena<D>)
    requires x in a
  {
    a[x := a[x].(tail := l)]
  }

  /** nd_make: a fresh cell holding `d` with no links; nothing else changes. */
  function Make<D>(a: Arena<D>, id: NodeId, d: D): (r: Arena<D>)
    requires id !in a
    ensures r.Keys == a.Keys + {id}
    ensures r[id].data == d && r[id].head.None? && r[id].tail.None?
    ensures forall x :: x in a ==> r[x] == a[x]
  {
    a[id := Node(None, None, d)]
  }

  /**
   * nd_rem: point the neighbours of `nd` at each other and return `nd`,
   * whose own links are left as they were.
   */
  function Rem<D>(a: Arena<D>, nd: NodeId): (r: (Arena<D>, NodeId))
    requires nd in a && LinkIn(a, a[nd].head) && LinkIn(a, a[nd].tail)
    ensures r.1 == nd && r.0.Keys == a.Keys
    ensures forall x :: x in a ==> r.0[x].data == a[x].data
    ensures forall x :: x in a && Some(x) != a[nd].head && Some(x) != a[nd].tail ==> r.0[x] == a[x]
    ensures a[nd].head.Some? && a[nd].head != a[nd].tail ==>
      r.0[a[nd].head.value].tail == a[nd].tail
    ensures a[nd].tail.Some? ==> r.0[a[nd].tail.value].head == a[nd].head
    ensures a[nd].head.Some? && a[nd].head != a[nd].tail ==>
      r.0[a[nd].head.value].head == a[a[nd].head.value].head
    ensures a[nd].tail.Some? && a[nd].tail != a[nd].head ==>
      r.0[a[nd].tail.value].tail == a[a[nd].tail.value].tail
  {
    var h := a[nd].head;
    var t := a[nd].tail;
    var a1 := if h.Some? then SetTail(a, h.value, t) else a;
    var a2 := if t.Some? then SetHead(a1, t.value, h) else a1;
    (a2, nd)
  }

  /**
   * nd_free: unlink `nd` as Rem does, release it (and its data) and return
   * its former tail.
   */
  function Free<D>(a: Arena<D>, nd: NodeId): (r: (Arena<D>, Option<NodeId>))
    requires nd in a && LinkIn(a, a[nd].head) && LinkIn(a, a[nd].tail)
    ensures r.1 == a[nd].tail
    ensures r.0.Keys == a.Keys - {nd}
    ensures forall x :: x in r.0 ==> r.0[x] == Rem(a, nd).0[x]
  {
    var tail := a[nd].tail;
    var (a1, tmp) := Rem(a, nd);
    (a1 - {tmp}, tail)
  }

  /**
   * nd_append: splice `c` in right after `nd`. The former tail of `nd`
   * becomes the tail of `c`. Returns `c`.
   */
  function Append<D>(a: Arena<D>, nd: NodeId, c: NodeId): (r: (Arena<D>, NodeId))
    requires nd in a && c in a && LinkIn(a, a[nd].tail)
    ensures r.1 == c && r.0.Keys == a.Keys
    ensures forall x :: x in a ==> r.0[x].data == a[x].data
    ensures forall x :: x in a && x != nd && x != c && Some(x) != a[nd].tail ==> r.0[x] == a[x]
    ensures r.0[c].tail == a[nd].tail
    ensures a[nd].tail != Some(c) ==> r.0[c].head == Some(nd)
    ensures c != nd ==> r.0[nd].tail == Some(c)
    ensures a[nd].tail.Some? ==> r.0[a[nd].tail.value].head == Some(c)
    ensures c != nd && a[nd].tail != Some(nd) ==> r.0[nd].head == a[nd].head
    ensures a[nd].tail.Some? && a[nd].tail != Some(c) && a[nd].tail != Some(nd) ==>
      r.0[a[nd].tail.value].tail == a[a[nd].tail.value].tail
  {
    var oldChild := a[nd].tail;
    var a1 := SetTail(a, nd, Some(c));
    var a2 := SetHead(a1, c, Some(nd));
    var a3 := SetTail(a2, c, oldChild);
    var a4 := if oldChild.Some? then SetHead(a3, oldChild.value, Some(c)) else a3;
    (a4, c)
  }

  /**
   * nd_prepend: splice `h` in right before `nd`. The former head of `nd`
   * becomes the head of `h`. Returns `h`.
   */
  function Prepend<D>(a: Arena<D>, nd: NodeId, h: NodeId): (r: (Arena<D>, NodeId))
    requires nd in a && h in a && LinkIn(a, a[nd].head)
    ensures r.1 == h && r.0.Keys == a.Keys
    ensures forall x :: x in a ==> r.0[x].data == a[x].data
    ensures forall x :: x in a && x != nd && x != h && Some(x) != a[nd].head ==> r.0[x] == a[x]
    ensures r.0[h].head == a[nd].head
    ensures a[nd].head != Some(h) ==> r.0[h].tail == Some(nd)
    ensures h != nd ==> r.0[nd].head == Some(h)
    ensures a[nd].head.Some? ==> r.0[a[nd].head.value].tail == Some(h)
    ensures h != nd && a[nd].head != Some(nd) ==> r.0[nd].tail == a[nd].tail
    ensures a[nd].head.Some? && a[nd].head != Some(h) && a[nd].head != Some(nd) ==>
      r.0[a[nd].head.value].head == a[a[nd].head.value].head
  {
    var oldHead := a[nd].head;
    var a1 := SetHead(a, nd, Some(h));
    var a2 := SetTail(a1, h, Some(nd));
    var a3 := SetHead(a2, h, oldHead);
    var a4 := if oldHead.Some? then SetTail(a3, oldHead.value, Some(h)) else a3;
    (a4, h)
  }
}
