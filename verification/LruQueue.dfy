/**
  The LRU cache of xv6/hashbuf.c: queue nodes linked in place, front to rear, and an array from page
  numbers to nodes, proved to hold the pages that Recency says.
 */
module LruQueue {
  import opened Basics
  import opened Recency

  class QNode {
    var prev: QNode?
    var next: QNode?
    const page: nat

    constructor (p: nat)
      ensures page == p && prev == null && next == null
    {
      page, prev, next := p, null, null;
    }
  }

  ghost function NodeAt(ns: seq<QNode>, i: int): QNode? {
    if 0 <= i < |ns| then ns[i] else null
  }

  /** Node i is linked to its neighbours in the list. */
  ghost predicate LinkOk(ns: seq<QNode>, i: nat)
    requires i < |ns|
    reads ns[i]
  {
    ns[i].prev == NodeAt(ns, i - 1) && ns[i].next == NodeAt(ns, i + 1)
  }

  ghost predicate AllDifferent(ns: seq<QNode>) {
    forall i, j :: 0 <= i < j < |ns| ==> ns[i] != ns[j]
  }

  ghost predicate Linked(ns: seq<QNode>)
    reads ns
  {
    AllDifferent(ns) && forall i :: 0 <= i < |ns| ==> LinkOk(ns, i)
  }

  ghost function PagesOf(ns: seq<QNode>): (r: seq<nat>)
    ensures |r| == |ns| && forall i :: 0 <= i < |ns| ==> r[i] == ns[i].page
  {
    seq(|ns|, i requires 0 <= i < |ns| => ns[i].page)
  }

  /** The array maps exactly the pages in the list to their nodes. */
  ghost predicate Indexes(tab: seq<QNode?>, ns: seq<QNode>) {
    && (forall i :: 0 <= i < |ns| ==> ns[i].page < |tab| && tab[ns[i].page] == ns[i])
    && (forall p :: 0 <= p < |tab| && tab[p] != null ==> tab[p] in ns && tab[p].page == p)
  }

  lemma IndexesLess(tab: seq<QNode?>, ns: seq<QNode>)
    requires Indexes(tab, ns) && ns != [] && AllDifferent(ns)
    ensures Indexes(tab[ns[|ns| - 1].page := null], ns[..|ns| - 1])
  {
    var n := |ns| - 1;
    var tab' := tab[ns[n].page := null];
    forall i | 0 <= i < n ensures tab'[ns[i].page] == ns[i] {
      assert ns[i] != ns[n];
    }
    forall p | 0 <= p < |tab'| && tab'[p] != null ensures tab'[p] in ns[..n] && tab'[p].page == p {
      assert tab[p] in ns && tab[p] != ns[n];
    }
  }

  lemma IndexesMore(tab: seq<QNode?>, ns: seq<QNode>, temp: QNode)
    requires Indexes(tab, ns) && temp.page < |tab| && tab[temp.page] == null
    ensures Indexes(tab[temp.page := temp], [temp] + ns)
  {
    var ns', tab' := [temp] + ns, tab[temp.page := temp];
    forall i | 0 <= i < |ns'| ensures ns'[i].page < |tab'| && tab'[ns'[i].page] == ns'[i] {
      assert i > 0 ==> ns'[i] == ns[i - 1];
    }
  }

  lemma IndexesSame(tab: seq<QNode?>, ns: seq<QNode>, ns': seq<QNode>)
    requires Indexes(tab, ns) && forall n :: n in ns' <==> n in ns
    ensures Indexes(tab, ns')
  {
    forall i | 0 <= i < |ns'| ensures ns'[i].page < |tab| && tab[ns'[i].page] == ns'[i] {
      assert ns'[i] in ns;
    }
  }

  lemma IndexesDiffer(tab: seq<QNode?>, ns: seq<QNode>)
    requires Indexes(tab, ns) && AllDifferent(ns)
    ensures DifferentPages(ns)
    ensures forall p :: 0 <= p < |tab| && tab[p] == null ==> p !in PagesOf(ns)
  {
  }

  class Queue {
    var count: nat
    const frames: nat
    var front: QNode?
    var rear: QNode?
    const table: array<QNode?>
    // the nodes from front to rear, and all references so far
    ghost var nodes: seq<QNode>
    ghost var refs: seq<nat>

    ghost predicate ListOk()
      reads this, nodes
    {
      Linked(nodes) && front == NodeAt(nodes, 0) && rear == NodeAt(nodes, |nodes| - 1) && count == |nodes|
    }

    ghost predicate Sound()
      reads this, nodes, table
    {
      ListOk() && Indexes(table[..], nodes) && frames > 0 && count <= frames
    }

    ghost predicate Valid()
      reads this, nodes, table
    {
      Sound() && PagesOf(nodes) == Cache(refs, frames)
    }

    constructor (numberOfFrames: nat, capacity: nat)
      requires numberOfFrames > 0
      ensures Valid() && frames == numberOfFrames && table.Length == capacity && nodes == [] && refs == []
      ensures fresh(table)
    {
      count, frames, front, rear := 0, numberOfFrames, null, null;
      table := new QNode?[capacity](_ => null);
      nodes, refs := [], [];
    }

    /** Drops the rear node, if any. */
    method DeQueue()
      requires ListOk()
      modifies this, nodes
      ensures ListOk() && refs == old(refs)
      ensures nodes == if old(nodes) == [] then [] else old(nodes)[..|old(nodes)| - 1]
    {
      if rear == null {
        return;
      }
      ghost var ns, n := nodes, |nodes| - 1;
      assert LinkOk(ns, n) && (n > 0 ==> LinkOk(ns, n - 1));
      if front == rear {
        front := null;
      }
      rear := rear.prev;
      if rear != null {
        rear.next := null;
      }
      count := count - 1;
      nodes := ns[..n];
      forall i | 0 <= i < n ensures LinkOk(nodes, i) {
        assert old(LinkOk(ns, i));
      }
    }

    /** A new node in front. */
    method PushFront(page: nat) returns (temp: QNode)
      requires ListOk()
      modifies this, nodes
      ensures ListOk() && refs == old(refs) && nodes == [temp] + old(nodes) && fresh(temp) && temp.page == page
    {
      ghost var ns := nodes;
      temp := new QNode(page);
      temp.next := front;
      assert ns != [] ==> LinkOk(ns, 0);
      if rear == null {
        rear, front := temp, temp;
      } else {
        front.prev := temp;
        front := temp;
      }
      count := count + 1;
      nodes := [temp] + ns;
      forall i | 0 <= i < |nodes| ensures LinkOk(nodes, i) {
        assert i > 0 ==> old(LinkOk(ns, i - 1));
        assert i > 0 ==> nodes[i] == ns[i - 1];
      }
    }

    /** A page that is not cached comes in; with all frames full the page at the rear goes. */
    method Enqueue(page: nat)
      requires ListOk() && Indexes(table[..], nodes) && 0 < frames && count <= frames
      requires page < table.Length && table[page] == null
      modifies this, nodes, table
      ensures ListOk() && Indexes(table[..], nodes) && count <= frames && refs == old(refs)
      ensures nodes != [] && nodes[0].page == page
      ensures nodes[1..] == if old(count) == frames then old(nodes)[..frames - 1] else old(nodes)
    {
      if count == frames {
        Evict(page);
      }
      ghost var ns1, tab1 := nodes, table[..];
      var temp := PushFront(page);
      IndexesMore(tab1, ns1, temp);
      table[page] := temp;
      assert table[..] == tab1[page := temp];
    }

    /** The rear page leaves the array and the list. */
    method Evict(ghost page: nat)
      requires ListOk() && Indexes(table[..], nodes) && nodes != []
      requires page < table.Length && table[page] == null
      modifies this, nodes, table
      ensures ListOk() && Indexes(table[..], nodes) && refs == old(refs) && table[page] == null
      ensures nodes == old(nodes)[..|old(nodes)| - 1]
    {
      ghost var ns, tab := nodes, table[..];
      IndexesLess(tab, ns);
      table[rear.page] := null;
      assert table[..] == tab[ns[|ns| - 1].page := null];
      DeQueue();
    }

    /** The two assignments that unlink a node that is not in front. */
    method Unlink(req: QNode, ghost k: nat)
      requires ListOk() && 0 < k < |nodes| && nodes[k] == req
      modifies this, nodes
      ensures refs == old(refs) && count == old(count) && front == old(front)
      ensures nodes == old(nodes)[..k] + old(nodes)[k + 1..] && req !in nodes
      ensures Linked(nodes) && front == NodeAt(nodes, 0) && rear == NodeAt(nodes, |nodes| - 1)
    {
      ghost var ns := nodes;
      assert LinkOk(ns, k) && LinkOk(ns, k - 1) && (k + 1 < |ns| ==> LinkOk(ns, k + 1));
      req.prev.next := req.next;
      if req.next != null {
        req.next.prev := req.prev;
      }
      if req == rear {
        rear := req.prev;
        rear.next := null;
      }
      nodes := ns[..k] + ns[k + 1..];
      forall i | 0 <= i < |nodes| ensures LinkOk(nodes, i) {
        assert old(LinkOk(ns, if i < k then i else i + 1));
        assert nodes[i] == ns[if i < k then i else i + 1];
      }
    }

    /** The assignments that put an unlinked node in front. */
    method Relink(req: QNode)
      requires Linked(nodes) && nodes != [] && front == nodes[0] && rear == nodes[|nodes| - 1] && req !in nodes
      modifies this, nodes, req
      ensures refs == old(refs) && count == old(count) && nodes == [req] + old(nodes)
      ensures Linked(nodes) && front == req && rear == nodes[|nodes| - 1]
    {
      ghost var ns := nodes;
      req.next := front;
      req.prev := null;
      req.next.prev := req;
      front := req;
      nodes := [req] + ns;
      forall i | 0 <= i < |nodes| ensures LinkOk(nodes, i) {
        assert i > 0 ==> old(LinkOk(ns, i - 1));
        assert i > 0 ==> nodes[i] == ns[i - 1];
      }
    }

    /** A reference: the list and the array follow the pure cache. */
    method ReferencePage(page: nat)
      requires Valid() && page < table.Length
      modifies this, nodes, table
      ensures Valid() && refs == old(refs) + [page]
    {
      ghost var q0, rs := PagesOf(nodes), refs;
      Reference(page);
      CacheNext(rs, page, frames, q0, PagesOf(nodes));
      refs := rs + [page];
    }

    method Reference(page: nat)
      requires Sound() && page < table.Length
      modifies this, nodes, table
      ensures Sound() && refs == old(refs) && PagesOf(nodes) == Touch(old(PagesOf(nodes)), page, frames)
    {
      var req := table[page];
      if req == null {
        BringIn(page);
      } else if req != front {
        MoveUp(req, page);
      } else {
        IndexesDiffer(table[..], nodes);
        assert table[..][page] in nodes;
        FrontPages(nodes, page, frames);
      }
    }

    method BringIn(page: nat)
      requires Sound() && page < table.Length && table[page] == null
      modifies this, nodes, table
      ensures Sound() && refs == old(refs) && PagesOf(nodes) == Touch(old(PagesOf(nodes)), page, frames)
    {
      ghost var ns := nodes;
      IndexesDiffer(table[..], ns);
      assert table[..][page] == null;
      Enqueue(page);
      EnqueuePages(ns, nodes[1..], nodes, page, frames);
    }

    method MoveUp(req: QNode, ghost page: nat)
      requires Sound() && page < table.Length && table[page] == req && req != front
      modifies this, nodes
      ensures Sound() && refs == old(refs) && PagesOf(nodes) == Touch(old(PagesOf(nodes)), page, frames)
    {
      ghost var ns, tab := nodes, table[..];
      IndexesDiffer(tab, ns);
      assert tab[page] in ns;
      ghost var k :| 0 <= k < |nodes| && nodes[k] == req;
      MoveToFront(req, k);
      MovedNodes(ns, nodes, k, page, frames);
      IndexesSame(tab, ns, nodes);
    }

    /** A node that is not in front moves there. */
    method MoveToFront(req: QNode, ghost k: nat)
      requires ListOk() && 0 < k < |nodes| && nodes[k] == req
      modifies this, nodes
      ensures ListOk() && refs == old(refs) && nodes == [req] + (old(nodes)[..k] + old(nodes)[k + 1..])
    {
      Unlink(req, k);
      Relink(req);
    }
  }

  /** Whatever was referenced, the queue holds the most recent distinct pages, in order, capped. */
  lemma HoldsMostRecent(q: Queue)
    requires q.Valid()
    ensures PagesOf(q.nodes) == Take(AllRecent(q.refs), q.frames) && ByRecency(AllRecent(q.refs), q.refs)
  {
    CacheIsMostRecent(q.refs, q.frames);
  }

  lemma CacheNext(refs: seq<nat>, page: nat, frames: nat, q: seq<nat>, q': seq<nat>)
    requires q == Cache(refs, frames) && q' == Touch(q, page, frames)
    ensures q' == Cache(refs + [page], frames)
  {
    assert (refs + [page])[..|refs|] == refs;
  }

  lemma EnqueuePages(ns: seq<QNode>, ns1: seq<QNode>, ns2: seq<QNode>, page: nat, frames: nat)
    requires page !in PagesOf(ns) && frames > 0 && |ns| <= frames
    requires ns1 == if |ns| == frames then ns[..|ns| - 1] else ns
    requires |ns2| == |ns1| + 1 && ns2[0].page == page && ns2[1..] == ns1
    ensures PagesOf(ns2) == Touch(PagesOf(ns), page, frames)
  {
    WithoutAbsent(PagesOf(ns), page);
  }

  lemma {:induction false} WithoutAt(q: seq<nat>, k: nat)
    requires k < |q| && Distinct(q)
    ensures Without(q, q[k]) == q[..k] + q[k + 1..]
    decreases |q|
  {
    if k == 0 {
      assert q[0] !in q[1..];
      WithoutAbsent(q[1..], q[0]);
    } else {
      WithoutAt(q[1..], k - 1);
      assert q[..k] == [q[0]] + q[1..][..k - 1];
    }
  }

  ghost predicate DifferentPages(ns: seq<QNode>) {
    forall i, j :: 0 <= i < j < |ns| ==> ns[i].page != ns[j].page
  }

  lemma MovedNodes(ns: seq<QNode>, ns': seq<QNode>, k: nat, page: nat, frames: nat)
    requires k < |ns| <= frames && ns[k].page == page && DifferentPages(ns)
    requires ns' == [ns[k]] + (ns[..k] + ns[k + 1..])
    ensures PagesOf(ns') == Touch(PagesOf(ns), page, frames) && |ns'| == |ns|
    ensures forall n :: n in ns' <==> n in ns
  {
    MovedPages(ns, ns', k);
    TouchCached(PagesOf(ns), k, frames);
    forall n | n in ns ensures n in ns' {
      var i :| 0 <= i < |ns| && ns[i] == n;
      assert i < k ==> ns'[i + 1] == n;
      assert i > k ==> ns'[i] == n;
      assert ns'[0] == ns[k];
    }
  }

  lemma MovedPages(ns: seq<QNode>, ns': seq<QNode>, k: nat)
    requires k < |ns| && ns' == [ns[k]] + (ns[..k] + ns[k + 1..])
    ensures var q := PagesOf(ns); PagesOf(ns') == [q[k]] + (q[..k] + q[k + 1..])
  {
  }

  lemma TouchCached(q: seq<nat>, k: nat, frames: nat)
    requires k < |q| <= frames && Distinct(q)
    ensures Touch(q, q[k], frames) == [q[k]] + (q[..k] + q[k + 1..])
  {
    WithoutAt(q, k);
  }

  lemma FrontPages(ns: seq<QNode>, page: nat, frames: nat)
    requires ns != [] && |ns| <= frames && ns[0].page == page && DifferentPages(ns)
    ensures Touch(PagesOf(ns), page, frames) == PagesOf(ns)
  {
    var q := PagesOf(ns);
    TouchCached(q, 0, frames);
    assert [q[0]] + (q[..0] + q[1..]) == q;
  }
}
