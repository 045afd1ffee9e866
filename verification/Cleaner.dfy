/** The breadth-first removal of comments and formatting white space
    (net/http/domclean2/02_remove_comments_and_whitespace.go), driven by the ring-buffer queue. */
module Cleaner {

  import opened Wrappers
  import opened Dom
  import opened Queue

  /** A node with its level, the unit of work in the queue. */
  datatype NdX = NdX(nd: DomNode, lvl: nat)

  ghost predicate Has(s: seq<NdX>, n: DomNode?) {
    exists i :: 0 <= i < |s| && s[i].nd == n
  }

  /** No node is in s twice, and the levels do not decrease. */
  ghost predicate Rising(s: seq<NdX>) {
    forall i, j :: 0 <= i < j < |s| ==> s[i].nd != s[j].nd && s[i].lvl <= s[j].lvl
  }

  /** Moreover every entry of s carries its node's level. */
  ghost predicate Levelled(t: Layout, s: seq<NdX>)
    requires IsTree(t)
  {
    && (forall i :: 0 <= i < |s| ==> s[i].nd in t.nodes && s[i].lvl == t.depth[s[i].nd])
    && Rising(s)
  }

  /** The waiting entries span at most two levels. */
  ghost predicate Narrow(t: Layout, pending: seq<NdX>)
    requires IsTree(t)
  {
    pending != [] ==> pending[0].nd in t.nodes && pending[|pending| - 1].lvl <= pending[0].lvl + 1
  }

  /** Beside the root, exactly the children of visited nodes have been queued. */
  ghost predicate Queued(t: Layout, all: seq<NdX>, done: seq<NdX>)
    requires IsTree(t)
  {
    && Has(all, t.root)
    && (forall n :: n in t.nodes && n != t.root ==> (Has(all, n) <==> Has(done, t.up[n])))
  }

  /** What holds between two visits: `done` was visited, `pending` waits, oldest first. */
  ghost predicate Sweep(t: Layout, done: seq<NdX>, pending: seq<NdX>)
    requires IsTree(t)
  {
    Levelled(t, done + pending) && Narrow(t, pending) && Queued(t, done + pending, done)
  }

  /** The entries queued for the children of a node at level lvl - 1. */
  function Below(ns: seq<DomNode>, lvl: nat): (r: seq<NdX>)
    ensures |r| == |ns|
    ensures forall i :: 0 <= i < |ns| ==> r[i] == NdX(ns[i], lvl)
  {
    seq(|ns|, i requires 0 <= i < |ns| => NdX(ns[i], lvl))
  }

  lemma HasSplit(a: seq<NdX>, b: seq<NdX>, n: DomNode?)
    ensures Has(a + b, n) <==> Has(a, n) || Has(b, n)
  {
    if Has(a, n) {
      var i :| 0 <= i < |a| && a[i].nd == n;
      assert (a + b)[i].nd == n;
    }
    if Has(b, n) {
      var i :| 0 <= i < |b| && b[i].nd == n;
      assert (a + b)[|a| + i].nd == n;
    }
  }

  lemma HasBelow(ns: seq<DomNode>, lvl: nat, n: DomNode)
    ensures Has(Below(ns, lvl), n) <==> n in ns
  {
    if n in ns {
      var i :| 0 <= i < |ns| && ns[i] == n;
      assert Below(ns, lvl)[i].nd == n;
    }
  }

  lemma NotAgain(t: Layout, done: seq<NdX>, pending: seq<NdX>)
    requires IsTree(t) && Sweep(t, done, pending) && pending != []
    ensures !Has(done, pending[0].nd) && pending[0].nd in t.nodes && pending[0].lvl == t.depth[pending[0].nd]
  {
    var all := done + pending;
    assert all[|done|] == pending[0];
    forall d | 0 <= d < |done| ensures done[d].nd != pending[0].nd {
      assert all[d] == done[d];
    }
  }

  /** The children of the oldest waiting node were not queued before. */
  lemma ChildIsNew(t: Layout, done: seq<NdX>, pending: seq<NdX>, c: DomNode)
    requires IsTree(t) && Sweep(t, done, pending) && pending != []
    requires c in t.kids[pending[0].nd]
    ensures c in t.nodes && c != t.root && t.up[c] == pending[0].nd && t.depth[c] == pending[0].lvl + 1
    ensures !Has(done + pending, c)
  {
    NotAgain(t, done, pending);
    var i :| 0 <= i < |t.kids[pending[0].nd]| && t.kids[pending[0].nd][i] == c;
  }

  lemma RisingJoin(a: seq<NdX>, b: seq<NdX>)
    requires Rising(a) && Rising(b)
    requires forall k :: 0 <= k < |b| ==> !Has(a, b[k].nd)
    requires a != [] && b != [] ==> a[|a| - 1].lvl <= b[0].lvl
    ensures Rising(a + b)
  {
    var s := a + b;
    forall i, j | 0 <= i < j < |s| ensures s[i].nd != s[j].nd && s[i].lvl <= s[j].lvl {
      if i < |a| <= j {
        var k := j - |a|;
        assert s[i] == a[i] && s[j] == b[k] && !Has(a, b[k].nd);
        assert a[i].lvl <= a[|a| - 1].lvl && b[0].lvl <= b[k].lvl;
      }
    }
  }

  lemma LevelledJoin(t: Layout, a: seq<NdX>, b: seq<NdX>)
    requires IsTree(t) && Levelled(t, a) && Levelled(t, b)
    requires forall k :: 0 <= k < |b| ==> !Has(a, b[k].nd)
    requires a != [] && b != [] ==> a[|a| - 1].lvl <= b[0].lvl
    ensures Levelled(t, a + b)
  {
    RisingJoin(a, b);
  }

  /** The entries for the children of the oldest waiting node are new and one level below it. */
  lemma BelowIsNew(t: Layout, done: seq<NdX>, pending: seq<NdX>)
    requires IsTree(t) && Sweep(t, done, pending) && pending != []
    ensures pending[0].nd in t.nodes
    ensures var more := Below(t.kids[pending[0].nd], pending[0].lvl + 1);
      Levelled(t, more) && forall k :: 0 <= k < |more| ==> !Has(done + pending, more[k].nd)
  {
    var kids := t.kids[pending[0].nd];
    var more := Below(kids, pending[0].lvl + 1);
    forall k | 0 <= k < |more|
      ensures more[k].nd in t.nodes && more[k].lvl == t.depth[more[k].nd] && !Has(done + pending, more[k].nd)
    {
      ChildIsNew(t, done, pending, kids[k]);
    }
  }

  /** Queueing the children of the node just visited keeps the queue in level order, each node once. */
  lemma LevelledStep(t: Layout, done: seq<NdX>, pending: seq<NdX>)
    requires IsTree(t) && Sweep(t, done, pending) && pending != []
    ensures Levelled(t, done + pending + Below(t.kids[pending[0].nd], pending[0].lvl + 1))
  {
    BelowIsNew(t, done, pending);
    assert (done + pending)[|done + pending| - 1] == pending[|pending| - 1];
    LevelledJoin(t, done + pending, Below(t.kids[pending[0].nd], pending[0].lvl + 1));
  }

  lemma QueuedStep(t: Layout, done: seq<NdX>, pending: seq<NdX>)
    requires IsTree(t) && Sweep(t, done, pending) && pending != []
    ensures Queued(t, done + pending + Below(t.kids[pending[0].nd], pending[0].lvl + 1), done + [pending[0]])
  {
    var here := pending[0];
    var more := Below(t.kids[here.nd], here.lvl + 1);
    forall n | n in t.nodes && n != t.root
      ensures Has(done + pending + more, n) <==> Has(done + [here], t.up[n])
    {
      HasSplit(done + pending, more, n);
      HasSplit(done, [here], t.up[n]);
      HasBelow(t.kids[here.nd], here.lvl + 1, n);
      assert Has([here], t.up[n]) <==> t.up[n] == here.nd by { assert [here][0] == here; }
      if n in t.kids[here.nd] {
        ChildIsNew(t, done, pending, n);
      }
    }
    HasSplit(done + pending, more, t.root);
  }

  lemma NarrowStep(t: Layout, done: seq<NdX>, pending: seq<NdX>)
    requires IsTree(t) && Sweep(t, done, pending) && pending != []
    ensures Narrow(t, pending[1..] + Below(t.kids[pending[0].nd], pending[0].lvl + 1))
  {
    var kids := t.kids[pending[0].nd];
    if |pending| > 1 {
      var all := done + pending;
      assert all[|done| + 1] == pending[1] && all[|done|] == pending[0];
    } else if kids != [] {
      ChildIsNew(t, done, pending, kids[0]);
    }
  }

  lemma Rejoin<T>(done: seq<T>, pending: seq<T>, more: seq<T>)
    requires pending != []
    ensures done + [pending[0]] + (pending[1..] + more) == done + pending + more
  {
  }

  /** Visiting the oldest waiting node keeps the sweep. */
  lemma SweepStep(t: Layout, done: seq<NdX>, pending: seq<NdX>)
    requires IsTree(t) && Sweep(t, done, pending) && pending != []
    ensures Sweep(t, done + [pending[0]], pending[1..] + Below(t.kids[pending[0].nd], pending[0].lvl + 1))
  {
    var more := Below(t.kids[pending[0].nd], pending[0].lvl + 1);
    Rejoin(done, pending, more);
    LevelledStep(t, done, pending);
    QueuedStep(t, done, pending);
    NarrowStep(t, done, pending);
  }

  /** When nothing waits any more, every node has been visited. */
  lemma {:induction false} SweepReaches(t: Layout, done: seq<NdX>, n: DomNode)
    requires IsTree(t) && Sweep(t, done, []) && n in t.nodes
    ensures Has(done, n)
    decreases t.depth[n]
  {
    assert done + [] == done;
    if n != t.root {
      var i :| 0 <= i < |t.kids[t.up[n]]| && t.kids[t.up[n]][i] == n;
      SweepReaches(t, done, t.up[n]);
    }
  }

  /** Comments, and texts the predicate calls spacey. */
  predicate Junk(n: DomNode, spacey: string -> bool) {
    n.kind == CommentNode || (n.kind == TextNode && spacey(n.data))
  }

  /** The junk of a tree, as far as it has a parent to be taken from. */
  ghost function Rubbish(t: Layout, spacey: string -> bool): (r: set<DomNode>)
    requires IsTree(t)
  {
    set n | n in t.nodes && t.up[n] != null && Junk(n, spacey)
  }

  /** What stays under a node: its elements and the texts that say something, all of them. */
  lemma StaysIff(t: Layout, spacey: string -> bool, n: DomNode, c: DomNode)
    requires IsTree(t) && n in t.nodes
    ensures c in Kept(t.kids[n], Rubbish(t, spacey)) <==> c in t.kids[n] && match c.kind
      case CommentNode => false
      case TextNode => !spacey(c.data)
      case _ => true
  {
    KeptIff(t.kids[n], Rubbish(t, spacey), c);
  }

  /** The part of it among the visited nodes. */
  ghost function Thrown(t: Layout, done: seq<NdX>, spacey: string -> bool): (r: set<DomNode>)
    requires IsTree(t)
  {
    set n | n in t.nodes && t.up[n] != null && Has(done, n) && Junk(n, spacey)
  }

  lemma ThrownStep(t: Layout, done: seq<NdX>, x: NdX, spacey: string -> bool)
    requires IsTree(t) && x.nd in t.nodes
    ensures Thrown(t, done + [x], spacey) ==
            Thrown(t, done, spacey) + if t.up[x.nd] != null && Junk(x.nd, spacey) then {x.nd} else {}
  {
    forall n | n in t.nodes ensures Has(done + [x], n) <==> Has(done, n) || n == x.nd {
      HasSplit(done, [x], n);
      assert [x][0] == x;
    }
  }

  /** A waiting node and its children have not been thrown out yet. */
  lemma WaitingStands(t: Layout, done: seq<NdX>, pending: seq<NdX>, spacey: string -> bool)
    requires IsTree(t) && Sweep(t, done, pending) && pending != []
    ensures pending[0].nd in t.nodes && pending[0].nd !in Thrown(t, done, spacey)
    ensures Kept(t.kids[pending[0].nd], Thrown(t, done, spacey)) == t.kids[pending[0].nd]
  {
    NotAgain(t, done, pending);
    forall c | c in t.kids[pending[0].nd] ensures c !in Thrown(t, done, spacey) {
      ChildIsNew(t, done, pending, c);
      HasSplit(done, pending, c);
    }
    KeptAll(t.kids[pending[0].nd], Thrown(t, done, spacey));
  }

  /** The nodes still to be visited. */
  ghost function Unvisited(t: Layout, done: seq<NdX>): (r: set<DomNode>) {
    set n | n in t.nodes && !Has(done, n)
  }

  lemma UnvisitedStep(t: Layout, done: seq<NdX>, pending: seq<NdX>)
    requires IsTree(t) && Sweep(t, done, pending) && pending != []
    ensures Unvisited(t, done + [pending[0]]) < Unvisited(t, done)
  {
    var here := pending[0];
    NotAgain(t, done, pending);
    forall n | n in t.nodes ensures Has(done + [here], n) <==> Has(done, n) || n == here.nd {
      HasSplit(done, [here], n);
      assert [here][0] == here;
    }
    assert here.nd in Unvisited(t, done) && here.nd !in Unvisited(t, done + [here]);
  }

  /** The first visit: only the root waits. */
  lemma SweepStart(t: Layout)
    requires IsTree(t)
    ensures Sweep(t, [], [NdX(t.root, t.depth[t.root])])
  {
    var start := [NdX(t.root, t.depth[t.root])];
    assert [] + start == start && start[0].nd == t.root;
  }

  /** Queues the children of a node, first to last, one level down. */
  method EnQueueChildren(lpn: DomNode, lvl: nat, queue: Queue<NdX>, ghost kids: seq<DomNode>)
    requires queue.Valid() && kids == lpn.children
    modifies queue, queue.itm
    ensures queue.Valid() && (queue.itm == old(queue.itm) || fresh(queue.itm))
    ensures queue.Contents() == old(queue.Contents()) + Below(kids, lvl + 1)
  {
    ghost var before := queue.Contents();
    assert Below(kids[..0], lvl + 1) == [] && before + [] == before;
    var i := 0;
    while i < |lpn.children|
      invariant 0 <= i <= |lpn.children| && kids == lpn.children
      invariant queue.Valid() && (queue.itm == old(queue.itm) || fresh(queue.itm))
      invariant queue.Contents() == before + Below(kids[..i], lvl + 1)
    {
      BelowNext(kids, i, lvl + 1, before);
      queue.Push(NdX(lpn.children[i], lvl + 1));
      i := i + 1;
    }
    assert kids[..i] == kids;
  }

  lemma BelowNext(ns: seq<DomNode>, i: nat, lvl: nat, before: seq<NdX>)
    requires i < |ns|
    ensures before + Below(ns[..i], lvl) + [NdX(ns[i], lvl)] == before + Below(ns[..i + 1], lvl)
  {
    assert Below(ns[..i + 1], lvl) == Below(ns[..i], lvl) + [NdX(ns[i], lvl)];
  }

  /** Throws a node out if it is a comment or a formatting text. */
  method Discard(lpn: DomNode, spacey: string -> bool, ghost t: Layout, ghost gone: set<DomNode>)
    requires IsTree(t) && Stands(t, gone) && lpn in t.nodes && lpn !in gone
    modifies t.nodes, Outer(t)
    ensures Stands(t, gone + if t.up[lpn] != null && Junk(lpn, spacey) then {lpn} else {})
  {
    assert gone + {} == gone;
    if lpn.kind == CommentNode {
      RemoveNode(lpn, t, gone);
    }
    if lpn.kind == TextNode && spacey(lpn.data) {
      RemoveNode(lpn, t, gone);
    }
  }

  /** At the end every node has been visited once, by level, and the junk is gone. */
  lemma SweepEnd(t: Layout, visits: seq<NdX>, spacey: string -> bool)
    requires IsTree(t) && Sweep(t, visits, [])
    ensures Levelled(t, visits) && forall n :: n in t.nodes ==> Has(visits, n)
    ensures Thrown(t, visits, spacey) == Rubbish(t, spacey)
  {
    assert visits + [] == visits;
    forall n | n in t.nodes ensures Has(visits, n) {
      SweepReaches(t, visits, n);
    }
  }

  /** The entry at hand, if any, and the waiting ones behind it. */
  ghost function Pending(lp: Option<NdX>, queue: Queue<NdX>): (r: seq<NdX>)
    requires queue.Valid()
    reads queue, queue.itm
  {
    match lp case None => [] case Some(x) => [x] + queue.Contents()
  }

  /** The loop's invariant: `visits` were handled, the junk among them is gone, the rest waits. */
  ghost predicate Between(t: Layout, visits: seq<NdX>, lp: Option<NdX>, queue: Queue<NdX>, spacey: string -> bool)
    reads queue, queue.itm, t.nodes, Outer(t)
  {
    && IsTree(t) && queue.Valid() && Sweep(t, visits, Pending(lp, queue))
    && (lp == None ==> queue.Contents() == [])
    && Stands(t, Thrown(t, visits, spacey))
  }

  lemma HeadAndRest<T>(x: T, rest: seq<T>)
    ensures ([x] + rest)[0] == x && ([x] + rest)[1..] == rest
  {
  }

  /** What one visit does to the waiting entries. */
  lemma Advance(t: Layout, done: seq<NdX>, x: NdX, rest: seq<NdX>)
    requires IsTree(t) && Sweep(t, done, [x] + rest)
    ensures x.nd in t.nodes
    ensures Sweep(t, done + [x], rest + Below(t.kids[x.nd], x.lvl + 1))
  {
    HeadAndRest(x, rest);
    SweepStep(t, done, [x] + rest);
  }

  /** What one visit finds standing and what it throws out. */
  lemma AdvanceThrown(t: Layout, done: seq<NdX>, x: NdX, rest: seq<NdX>, spacey: string -> bool)
    requires IsTree(t) && Sweep(t, done, [x] + rest)
    ensures x.nd in t.nodes && x.nd !in Thrown(t, done, spacey)
    ensures Kept(t.kids[x.nd], Thrown(t, done, spacey)) == t.kids[x.nd]
    ensures Unvisited(t, done + [x]) < Unvisited(t, done)
    ensures Thrown(t, done + [x], spacey) ==
            Thrown(t, done, spacey) + if t.up[x.nd] != null && Junk(x.nd, spacey) then {x.nd} else {}
  {
    HeadAndRest(x, rest);
    WaitingStands(t, done, [x] + rest, spacey);
    UnvisitedStep(t, done, [x] + rest);
    ThrownStep(t, done, x, spacey);
  }

  /** Takes the next entry from the queue, which leaves the tree alone. */
  method Next(queue: Queue<NdX>, ghost t: Layout, ghost gone: set<DomNode>) returns (next: Option<NdX>)
    requires queue.Valid() && IsTree(t) && Stands(t, gone)
    modifies queue
    ensures queue.Valid() && queue.itm == old(queue.itm) && Stands(t, gone)
    ensures Pending(next, queue) == old(queue.Contents()) && (next == None ==> queue.Contents() == [])
  {
    next := queue.Pop();
  }

  /** One round of the loop on the heap: queue the children, throw the node itself out if it is junk,
      and take the next entry. */
  method Visit(lp: NdX, queue: Queue<NdX>, spacey: string -> bool, ghost t: Layout, ghost gone: set<DomNode>)
    returns (next: Option<NdX>)
    requires IsTree(t) && Stands(t, gone)
    requires lp.nd in t.nodes && lp.nd !in gone && Kept(t.kids[lp.nd], gone) == t.kids[lp.nd]
    requires queue.Valid()
    modifies queue, queue.itm, t.nodes, Outer(t)
    ensures queue.Valid() && (queue.itm == old(queue.itm) || fresh(queue.itm))
    ensures Pending(next, queue) == old(queue.Contents()) + Below(t.kids[lp.nd], lp.lvl + 1)
    ensures next == None ==> queue.Contents() == []
    ensures Stands(t, gone + if t.up[lp.nd] != null && Junk(lp.nd, spacey) then {lp.nd} else {})
  {
    Handle(lp, queue, spacey, t, gone);
    next := Next(queue, t, gone + if t.up[lp.nd] != null && Junk(lp.nd, spacey) then {lp.nd} else {});
  }

  method Handle(lp: NdX, queue: Queue<NdX>, spacey: string -> bool, ghost t: Layout, ghost gone: set<DomNode>)
    requires IsTree(t) && Stands(t, gone)
    requires lp.nd in t.nodes && lp.nd !in gone && Kept(t.kids[lp.nd], gone) == t.kids[lp.nd]
    requires queue.Valid()
    modifies queue, queue.itm, t.nodes, Outer(t)
    ensures queue.Valid() && (queue.itm == old(queue.itm) || fresh(queue.itm))
    ensures queue.Contents() == old(queue.Contents()) + Below(t.kids[lp.nd], lp.lvl + 1)
    ensures Stands(t, gone + if t.up[lp.nd] != null && Junk(lp.nd, spacey) then {lp.nd} else {})
  {
    QueueKids(lp, queue, t.kids[lp.nd], t, gone);
    DiscardBeside(lp.nd, queue, spacey, t, gone);
  }

  /** Queueing leaves the tree alone. */
  method QueueKids(lp: NdX, queue: Queue<NdX>, ghost kids: seq<DomNode>, ghost t: Layout, ghost gone: set<DomNode>)
    requires IsTree(t) && Stands(t, gone) && queue.Valid() && kids == lp.nd.children
    modifies queue, queue.itm
    ensures queue.Valid() && (queue.itm == old(queue.itm) || fresh(queue.itm))
    ensures queue.Contents() == old(queue.Contents()) + Below(kids, lp.lvl + 1)
    ensures Stands(t, gone)
  {
    EnQueueChildren(lp.nd, lp.lvl, queue, kids);
  }

  /** Throwing out leaves the queue alone. */
  method DiscardBeside(lpn: DomNode, queue: Queue<NdX>, spacey: string -> bool, ghost t: Layout,
                       ghost gone: set<DomNode>)
    requires IsTree(t) && Stands(t, gone) && queue.Valid() && lpn in t.nodes && lpn !in gone
    modifies t.nodes, Outer(t)
    ensures queue.Valid() && queue.itm == old(queue.itm) && queue.Contents() == old(queue.Contents())
    ensures Stands(t, gone + if t.up[lpn] != null && Junk(lpn, spacey) then {lpn} else {})
  {
    Discard(lpn, spacey, t, gone);
  }

  /** One round of the loop up to the next entry. */
  method Round(lp: NdX, queue: Queue<NdX>, spacey: string -> bool, ghost t: Layout, ghost visits: seq<NdX>)
    returns (next: Option<NdX>)
    requires Between(t, visits, Some(lp), queue, spacey)
    modifies queue, queue.itm, t.nodes, Outer(t)
    ensures queue.itm == old(queue.itm) || fresh(queue.itm)
    ensures Between(t, visits + [lp], next, queue, spacey)
    ensures Unvisited(t, visits + [lp]) < Unvisited(t, visits)
  {
    Advance(t, visits, lp, queue.Contents());
    AdvanceThrown(t, visits, lp, queue.Contents(), spacey);
    next := Visit(lp, queue, spacey, t, Thrown(t, visits, spacey));
  }

  /** Throws the comments and the formatting texts out of the tree below, and including, the node to
      start with, if any. `visits` records the entries in the order they are handled: every node
      once, by non-decreasing level. */
  method RemoveCommentsAndIntertagWhitespace(start: Option<NdX>, spacey: string -> bool, ghost t: Layout)
    returns (ghost visits: seq<NdX>)
    requires start.Some? ==> IsTree(t) && start.value == NdX(t.root, t.depth[t.root]) && Stands(t, {})
    modifies if start.Some? then t.nodes + Outer(t) else {}
    ensures start == None ==> visits == []
    ensures start.Some? ==> Levelled(t, visits) && forall n :: n in t.nodes ==> Has(visits, n)
    ensures start.Some? ==> Stands(t, Rubbish(t, spacey))
  {
    visits := [];
    var lp := start;
    if lp.Some? {
      visits := CleanFrom(lp.value, spacey, t);
    }
  }

  method CleanFrom(start: NdX, spacey: string -> bool, ghost t: Layout) returns (ghost visits: seq<NdX>)
    requires IsTree(t) && start == NdX(t.root, t.depth[t.root]) && Stands(t, {})
    modifies t.nodes, Outer(t)
    ensures Levelled(t, visits) && forall n :: n in t.nodes ==> Has(visits, n)
    ensures Stands(t, Rubbish(t, spacey))
  {
    var queue := new Queue<NdX>.NewQueue(10);
    var lp := Some(start);
    visits := [];
    SweepStart(t);
    assert Pending(lp, queue) == [start] && Thrown(t, visits, spacey) == {};
    while lp.Some?
      invariant fresh(queue) && fresh(queue.itm) && Between(t, visits, lp, queue, spacey)
      decreases Unvisited(t, visits)
    {
      ghost var x := lp.value;
      lp := Round(lp.value, queue, spacey, t, visits);
      visits := visits + [x];
    }
    SweepEnd(t, visits, spacey);
  }
}
