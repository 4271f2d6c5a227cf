/**
 * What the relinking of module NodeList means for a well-formed list.
 *
 * `IsChain(a, xs)` says the distinct cells `xs` form one list in the arena:
 * the first has no head, the last has no tail, and each cell's tail is the
 * next cell whose head points back. The operations are then sequence edits
 * on `xs`, and the walks of nd_first, nd_last and nd_destroy terminate
 * because a chain has no cycle.
 */
module NodeChain {
  import opened Wrappers
  import opened NodeList

  ghost predicate IsChain<D>(a: Arena<D>, xs: seq<NodeId>)
  {
    && (forall i :: 0 <= i < |xs| ==> xs[i] in a)
    && (forall i, j :: 0 <= i < j < |xs| ==> xs[i] != xs[j])
    && (|xs| > 0 ==> a[xs[0]].head.None? && a[xs[|xs| - 1]].tail.None?)
    && (forall i :: 0 <= i < |xs| - 1 ==> a[xs[i]].tail == Some(xs[i + 1]))
    && (forall i :: 0 < i < |xs| ==> a[xs[i]].head == Some(xs[i - 1]))
  }

  function RemoveAt<X>(xs: seq<X>, i: int): (r: seq<X>)
    requires 0 <= i < |xs|
    ensures |r| == |xs| - 1
    ensures forall j :: 0 <= j < i ==> r[j] == xs[j]
    ensures forall j :: i <= j < |r| ==> r[j] == xs[j + 1]
  {
    xs[..i] + xs[i + 1..]
  }

  function InsertAt<X>(xs: seq<X>, i: int, x: X): (r: seq<X>)
    requires 0 <= i <= |xs|
    ensures |r| == |xs| + 1 && r[i] == x
    ensures forall j :: 0 <= j < i ==> r[j] == xs[j]
    ensures forall j :: i < j < |r| ==> r[j] == xs[j - 1]
  {
    xs[..i] + [x] + xs[i..]
  }

  /**
   * Within a chain the two link directions agree: `x.tail == y` exactly when
   * `y.head == x`, and a tail link only ever goes one step forward.
   */
  lemma LinksAgree<D>(a: Arena<D>, xs: seq<NodeId>, i: int, j: int)
    requires IsChain(a, xs) && 0 <= i < |xs| && 0 <= j < |xs|
    ensures a[xs[i]].tail == Some(xs[j]) <==> a[xs[j]].head == Some(xs[i])
    ensures a[xs[i]].tail == Some(xs[j]) ==> j == i + 1
  {
    if a[xs[i]].tail == Some(xs[j]) {
      assert i < |xs| - 1;
      assert xs[i + 1] == xs[j];
    }
    if a[xs[j]].head == Some(xs[i]) {
      assert 0 < j;
      assert xs[j - 1] == xs[i];
    }
  }

  /** nd_make yields a one-cell chain and leaves every existing chain intact. */
  lemma MakeChain<D>(a: Arena<D>, id: NodeId, d: D, xs: seq<NodeId>)
    requires id !in a && IsChain(a, xs)
    ensures IsChain(Make(a, id, d), [id])
    ensures IsChain(Make(a, id, d), xs)
  {
  }

  /** The cells a chain links from `xs[i]` all sit in the arena. */
  lemma ChainLinksIn<D>(a: Arena<D>, xs: seq<NodeId>, i: int)
    requires IsChain(a, xs) && 0 <= i < |xs|
    ensures LinkIn(a, a[xs[i]].head) && LinkIn(a, a[xs[i]].tail)
    ensures a[xs[i]].head == (if i > 0 then Some(xs[i - 1]) else None)
    ensures a[xs[i]].tail == (if i + 1 < |xs| then Some(xs[i + 1]) else None)
  {
    if i + 1 < |xs| {
      assert xs[i + 1] in a;
    }
    if i > 0 {
      assert xs[i - 1] in a;
    }
  }

  /**
   * nd_rem on a chain: the rest of the chain is the old sequence without
   * `nd`, `nd` keeps its own links, and cells outside the chain are untouched.
   */
  lemma {:induction false} RemChain<D>(a: Arena<D>, xs: seq<NodeId>, i: int)
    requires IsChain(a, xs) && 0 <= i < |xs|
    ensures LinkIn(a, a[xs[i]].head) && LinkIn(a, a[xs[i]].tail)
    ensures IsChain(Rem(a, xs[i]).0, RemoveAt(xs, i))
    ensures Rem(a, xs[i]).0[xs[i]] == a[xs[i]]
    ensures forall x :: x in a && x !in xs ==> Rem(a, xs[i]).0[x] == a[x]
  {
    ChainLinksIn(a, xs, i);
    var r := Rem(a, xs[i]).0;
    var ys := RemoveAt(xs, i);
    forall j | 0 <= j < |ys|
      ensures r[ys[j]].head == (if j > 0 then Some(ys[j - 1]) else None)
      ensures r[ys[j]].tail == (if j + 1 < |ys| then Some(ys[j + 1]) else None)
    {
      var k := if j < i then j else j + 1;
      assert ys[j] == xs[k];
      ChainLinksIn(a, xs, k);
      if j < i - 1 || j > i {
        assert r[ys[j]] == a[xs[k]];
      }
    }
    forall j, k | 0 <= j < k < |ys|
      ensures ys[j] != ys[k]
    {
      var j' := if j < i then j else j + 1;
      var k' := if k < i then k else k + 1;
      assert ys[j] == xs[j'] && ys[k] == xs[k'];
    }
  }

  /**
   * nd_free on a chain: `nd` leaves the arena, the rest of the chain is the
   * old sequence without it, and the result is the cell after `nd`, if any.
   */
  lemma FreeChain<D>(a: Arena<D>, xs: seq<NodeId>, i: int)
    requires IsChain(a, xs) && 0 <= i < |xs|
    ensures LinkIn(a, a[xs[i]].head) && LinkIn(a, a[xs[i]].tail)
    ensures xs[i] !in Free(a, xs[i]).0
    ensures IsChain(Free(a, xs[i]).0, RemoveAt(xs, i))
    ensures Free(a, xs[i]).1 == (if i + 1 < |xs| then Some(xs[i + 1]) else None)
    ensures forall x :: x in a && x !in xs ==> Free(a, xs[i]).0[x] == a[x]
  {
    RemChain(a, xs, i);
    ChainLinksIn(a, xs, i);
  }

  /**
   * nd_append on a chain: a cell `c` from outside the chain lands right after
   * `nd`; every other cell keeps its place.
   */
  lemma {:induction false} AppendChain<D>(a: Arena<D>, xs: seq<NodeId>, i: int, c: NodeId)
    requires IsChain(a, xs) && 0 <= i < |xs| && c in a && c !in xs
    ensures LinkIn(a, a[xs[i]].tail)
    ensures IsChain(Append(a, xs[i], c).0, InsertAt(xs, i + 1, c))
    ensures forall x :: x in a && x !in xs && x != c ==> Append(a, xs[i], c).0[x] == a[x]
  {
    ChainLinksIn(a, xs, i);
    var r := Append(a, xs[i], c).0;
    var ys := InsertAt(xs, i + 1, c);
    forall j | 0 <= j < |ys|
      ensures ys[j] in r
      ensures r[ys[j]].head == (if j > 0 then Some(ys[j - 1]) else None)
      ensures r[ys[j]].tail == (if j + 1 < |ys| then Some(ys[j + 1]) else None)
    {
      if j != i + 1 {
        var k := if j <= i then j else j - 1;
        assert ys[j] == xs[k];
        ChainLinksIn(a, xs, k);
        if j < i || j > i + 2 {
          assert r[ys[j]] == a[xs[k]];
        }
      }
    }
    forall j, k | 0 <= j < k < |ys|
      ensures ys[j] != ys[k]
    {
      if j != i + 1 && k != i + 1 {
        var j' := if j <= i then j else j - 1;
        var k' := if k <= i then k else k - 1;
        assert ys[j] == xs[j'] && ys[k] == xs[k'];
      }
    }
  }

  /**
   * nd_prepend on a chain: a cell `h` from outside the chain lands right
   * before `nd`; every other cell keeps its place.
   */
  lemma {:induction false} PrependChain<D>(a: Arena<D>, xs: seq<NodeId>, i: int, h: NodeId)
    requires IsChain(a, xs) && 0 <= i < |xs| && h in a && h !in xs
    ensures LinkIn(a, a[xs[i]].head)
    ensures IsChain(Prepend(a, xs[i], h).0, InsertAt(xs, i, h))
    ensures forall x :: x in a && x !in xs && x != h ==> Prepend(a, xs[i], h).0[x] == a[x]
  {
    ChainLinksIn(a, xs, i);
    var r := Prepend(a, xs[i], h).0;
    var ys := InsertAt(xs, i, h);
    forall j | 0 <= j < |ys|
      ensures ys[j] in r
      ensures r[ys[j]].head == (if j > 0 then Some(ys[j - 1]) else None)
      ensures r[ys[j]].tail == (if j + 1 < |ys| then Some(ys[j + 1]) else None)
    {
      if j != i {
        var k := if j < i then j else j - 1;
        assert ys[j] == xs[k];
        ChainLinksIn(a, xs, k);
        if j < i - 1 || j > i + 1 {
          assert r[ys[j]] == a[xs[k]];
        }
      }
    }
    forall j, k | 0 <= j < k < |ys|
      ensures ys[j] != ys[k]
    {
      if j != i && k != i {
        var j' := if j < i then j else j - 1;
        var k' := if k < i then k else k - 1;
        assert ys[j] == xs[j'] && ys[k] == xs[k'];
      }
    }
  }

  /** nd_last: follow tail links from `nd` to the cell with no tail, the chain's last. */
  method Last<D>(a: Arena<D>, nd: NodeId, ghost xs: seq<NodeId>) returns (last: NodeId)
    requires IsChain(a, xs) && nd in xs
    ensures last == xs[|xs| - 1]
    ensures a[last].tail.None?
  {
    ghost var k :| 0 <= k < |xs| && xs[k] == nd;
    last := nd;
    while a[last].tail.Some?
      invariant 0 <= k < |xs| && last == xs[k]
      decreases |xs| - k
    {
      ChainLinksIn(a, xs, k);
      last := a[last].tail.value;
      k := k + 1;
    }
    ChainLinksIn(a, xs, k);
  }

  /** nd_first: follow head links from `nd` to the cell with no head, the chain's first. */
  method First<D>(a: Arena<D>, nd: NodeId, ghost xs: seq<NodeId>) returns (first: NodeId)
    requires IsChain(a, xs) && nd in xs
    ensures first == xs[0]
    ensures a[first].head.None?
  {
    ghost var k :| 0 <= k < |xs| && xs[k] == nd;
    first := nd;
    while a[first].head.Some?
      invariant 0 <= k < |xs| && first == xs[k]
      decreases k
    {
      ChainLinksIn(a, xs, k);
      first := a[first].head.value;
      k := k - 1;
    }
    ChainLinksIn(a, xs, k);
  }

  /**
   * nd_destroy: free `nd` and then each next cell in turn until a freed cell
   * had no tail. The cells from `nd` on leave the arena; the cells before it
   * remain a chain, now ending where `nd` was; nothing else changes.
   */
  method Destroy<D>(a: Arena<D>, nd: NodeId, ghost xs: seq<NodeId>, ghost i: nat) returns (r: Arena<D>)
    requires IsChain(a, xs) && i < |xs| && xs[i] == nd
    ensures IsChain(r, xs[..i])
    ensures forall j :: i <= j < |xs| ==> xs[j] !in r
    ensures r.Keys == a.Keys - Span(xs, i, |xs|)
    ensures forall x :: x in a && x !in xs ==> r[x] == a[x]
    ensures forall x :: x in r ==> r[x].data == a[x].data
  {
    var curr: Option<NodeId> := Some(nd);
    r := a;
    ghost var m := i;
    DestroyStart(a, xs, i);
    while curr.Some?
      invariant DestroyInv(a, r, xs, i, m)
      invariant curr.Some? <==> m < |xs|
      invariant curr.Some? ==> curr.value == xs[m]
      decreases |xs| - m
    {
      DestroyStep(a, r, xs, i, m);
      var next := Free(r, curr.value);
      r, curr := next.0, next.1;
      m := m + 1;
    }
    DestroyDone(a, r, xs, i);
  }

  /** What holds after the nd_destroy walk has freed `xs[i..m]`. */
  ghost predicate DestroyInv<D>(a: Arena<D>, r: Arena<D>, xs: seq<NodeId>, i: nat, m: nat)
  {
    && i <= m <= |xs|
    && IsChain(r, xs[..i] + xs[m..])
    && r.Keys == a.Keys - Span(xs, i, m)
    && (forall x :: x in a && x !in xs ==> x in r && r[x] == a[x])
    && (forall x :: x in r ==> x in a && r[x].data == a[x].data)
  }

  /** The cells `xs[i..m]`, as a set. */
  ghost function Span<X>(xs: seq<X>, i: nat, m: nat): set<X>
    requires i <= m <= |xs|
  {
    set j | i <= j < m :: xs[j]
  }

  lemma SpanGrow<X>(xs: seq<X>, i: nat, m: nat)
    requires i <= m < |xs|
    ensures Span(xs, i, m + 1) == Span(xs, i, m) + {xs[m]}
  {
  }

  /** Before the nd_destroy walk frees anything, the arena is the whole chain. */
  lemma DestroyStart<D>(a: Arena<D>, xs: seq<NodeId>, i: nat)
    requires IsChain(a, xs) && i < |xs|
    ensures DestroyInv(a, a, xs, i, i)
  {
    assert xs[..i] + xs[i..] == xs;
  }

  /** When the walk has passed the last cell, only the prefix `xs[..i]` is left. */
  lemma DestroyDone<D>(a: Arena<D>, r: Arena<D>, xs: seq<NodeId>, i: nat)
    requires DestroyInv(a, r, xs, i, |xs|)
    ensures IsChain(r, xs[..i])
    ensures forall j :: i <= j < |xs| ==> xs[j] !in r
    ensures r.Keys == a.Keys - Span(xs, i, |xs|)
    ensures forall x :: x in a && x !in xs ==> r[x] == a[x]
    ensures forall x :: x in r ==> r[x].data == a[x].data
  {
    assert xs[..i] + xs[|xs|..] == xs[..i];
  }

  /** One round of the nd_destroy walk: freeing `xs[m]` drops it from the remaining chain. */
  lemma DestroyStep<D>(a: Arena<D>, r: Arena<D>, xs: seq<NodeId>, i: nat, m: nat)
    requires DestroyInv(a, r, xs, i, m) && m < |xs|
    ensures xs[m] in r && LinkIn(r, r[xs[m]].head) && LinkIn(r, r[xs[m]].tail)
    ensures DestroyInv(a, Free(r, xs[m]).0, xs, i, m + 1)
    ensures Free(r, xs[m]).1 == (if m + 1 < |xs| then Some(xs[m + 1]) else None)
  {
    var ys := xs[..i] + xs[m..];
    assert ys[i] == xs[m];
    FreeChain(r, ys, i);
    assert RemoveAt(ys, i) == xs[..i] + xs[m + 1..];
    PartsIn(xs, i, m);
    SpanGrow(xs, i, m);
  }

  lemma PartsIn<X>(xs: seq<X>, i: nat, m: nat)
    requires i <= m <= |xs|
    ensures forall x :: x in xs[..i] + xs[m..] ==> x in xs
  {
    forall x | x in xs[..i] + xs[m..]
      ensures x in xs
    {
      if x in xs[..i] {
        var k :| 0 <= k < i && xs[..i][k] == x;
        assert xs[k] == x;
      } else {
        var k :| 0 <= k < |xs| - m && xs[m..][k] == x;
        assert xs[m + k] == x;
      }
    }
  }
}
