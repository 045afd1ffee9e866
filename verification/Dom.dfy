/** Nodes of a parsed page and their removal: golang.org/x/net/html nodes as net/http/dom uses them. */
module Dom {
  import opened Basics

  datatype Kind = CommentNode | TextNode | ElementNode | OtherNode

  /** A node of the document: what it is never changes, its place in the tree does. */
  class DomNode {
    const kind: Kind
    const data: string
    const href: string
    var parent: DomNode?
    var children: seq<DomNode>

    constructor (kind: Kind, data: string, href: string)
      ensures this.kind == kind && this.data == data && this.href == href && parent == null && children == []
    {
      this.kind, this.data, this.href := kind, data, href;
      parent, children := null, [];
    }
  }

  /** The links and levels of a tree, as they were at one moment; `around` are the children of the
      root's own parent, if it has one. */
  datatype Layout = Layout(
    root: DomNode,
    nodes: set<DomNode>,
    kids: map<DomNode, seq<DomNode>>,
    up: map<DomNode, DomNode?>,
    depth: map<DomNode, nat>,
    around: seq<DomNode>)

  /** The layout is a tree: links both ways agree, levels grow by one, the root is on top and hangs
      nowhere else. */
  ghost predicate IsTree(t: Layout) {
    && t.root in t.nodes && t.kids.Keys == t.nodes && t.up.Keys == t.nodes && t.depth.Keys == t.nodes
    && t.up[t.root] !in t.nodes && (forall i :: 0 <= i < |t.around| && t.around[i] in t.nodes ==> t.around[i] == t.root)
    && (forall n, i :: n in t.nodes && 0 <= i < |t.kids[n]| ==>
         t.kids[n][i] in t.nodes && t.up[t.kids[n][i]] == n && t.depth[t.kids[n][i]] == t.depth[n] + 1)
    && (forall n, i, j :: n in t.nodes && 0 <= i < j < |t.kids[n]| ==> t.kids[n][i] != t.kids[n][j])
    && (forall n :: n in t.nodes && n != t.root ==>
         t.up[n] != null && t.up[n] in t.nodes && n in t.kids[t.up[n]])
  }

  /** A tree that hangs nowhere: a document. */
  ghost predicate IsDocument(t: Layout) {
    IsTree(t) && t.up[t.root] == null
  }

  /** The nodes of s that are not gone, in order. */
  ghost function Kept(s: seq<DomNode>, gone: set<DomNode>): (r: seq<DomNode>) {
    if s == [] then []
    else (if s[0] in gone then [] else [s[0]]) + Kept(s[1..], gone)
  }

  lemma {:induction false} KeptTwice(s: seq<DomNode>, gone: set<DomNode>, c: DomNode)
    ensures Kept(Kept(s, gone), {c}) == Kept(s, gone + {c})
  {
    if s != [] {
      KeptTwice(s[1..], gone, c);
      if s[0] !in gone {
        assert Kept(s, gone) == [s[0]] + Kept(s[1..], gone);
        assert Kept(s, gone)[1..] == Kept(s[1..], gone);
      } else {
        assert Kept(s, gone) == Kept(s[1..], gone);
      }
    }
  }

  lemma {:induction false} KeptSame(s: seq<DomNode>, gone: set<DomNode>, also: set<DomNode>)
    requires forall n :: n in s ==> (n in gone <==> n in also)
    ensures Kept(s, gone) == Kept(s, also)
  {
    if s != [] {
      KeptSame(s[1..], gone, also);
    }
  }

  lemma {:induction false} KeptIff(s: seq<DomNode>, gone: set<DomNode>, n: DomNode)
    ensures n in Kept(s, gone) <==> n in s && n !in gone
  {
    if s != [] {
      KeptIff(s[1..], gone, n);
    }
  }

  lemma {:induction false} KeptAll(s: seq<DomNode>, gone: set<DomNode>)
    requires forall n :: n in s ==> n !in gone
    ensures Kept(s, gone) == s
  {
    if s != [] {
      KeptAll(s[1..], gone);
    }
  }

  /** The node the root hangs under, if any. */
  ghost function Outer(t: Layout): set<DomNode> {
    if t.root in t.up && t.up[t.root] != null then {t.up[t.root]} else {}
  }

  /** The heap holds the tree t without the nodes that are gone. */
  ghost predicate Stands(t: Layout, gone: set<DomNode>)
    requires IsTree(t)
    reads t.nodes, Outer(t)
  {
    && (forall n :: n in t.nodes ==>
         n.children == Kept(t.kids[n], gone) && n.parent == if n in gone then null else t.up[n])
    && (forall n :: n in Outer(t) ==> n.children == Kept(t.around, gone))
  }

  lemma KeptNext(s: seq<DomNode>, i: nat, c: DomNode, rest: seq<DomNode>)
    requires i < |s|
    ensures rest + Kept(s[i..], {c}) == (if s[i] == c then rest else rest + [s[i]]) + Kept(s[i + 1..], {c})
  {
    var tail := Kept(s[i + 1..], {c});
    assert s[i..][1..] == s[i + 1..];
    if s[i] == c {
      assert [] + tail == tail;
    } else {
      Assoc(rest, [s[i]], tail);
    }
  }

  /** Unhooks c from its parent. */
  method RemoveChild(par: DomNode, c: DomNode)
    requires c.parent == par && par != c
    modifies par`children, c`parent
    ensures c.parent == null && par.children == Kept(old(par.children), {c})
  {
    var rest: seq<DomNode> := [];
    ghost var goal := Kept(par.children, {c});
    var i := 0;
    assert par.children[0..] == par.children && rest + goal == goal;
    while i < |par.children|
      invariant 0 <= i <= |par.children| && par.children == old(par.children)
      invariant goal == rest + Kept(par.children[i..], {c})
    {
      KeptNext(par.children, i, c, rest);
      if par.children[i] != c {
        rest := rest + [par.children[i]];
      }
      i := i + 1;
    }
    par.children := rest;
    c.parent := null;
  }

  /** Throwing out one more node only changes what its parent keeps. */
  lemma KeptOneLess(t: Layout, gone: set<DomNode>, n: DomNode, m: DomNode)
    requires IsTree(t) && n in t.nodes && m in t.nodes
    ensures Kept(t.kids[m], gone + {n}) ==
            if m == t.up[n] then Kept(Kept(t.kids[m], gone), {n}) else Kept(t.kids[m], gone)
  {
    if m == t.up[n] {
      KeptTwice(t.kids[m], gone, n);
    } else {
      KeptSame(t.kids[m], gone, gone + {n});
    }
  }

  lemma ParentIsOther(t: Layout, n: DomNode)
    requires IsTree(t) && n in t.nodes
    ensures t.up[n] != n && (t.up[n] in t.nodes <==> n != t.root)
  {
    if n != t.root {
      var i :| 0 <= i < |t.kids[t.up[n]]| && t.kids[t.up[n]][i] == n;
    }
  }

  lemma KeptAround(t: Layout, gone: set<DomNode>, n: DomNode)
    requires IsTree(t) && n in t.nodes
    ensures Kept(t.around, gone + {n}) ==
            if n == t.root then Kept(Kept(t.around, gone), {n}) else Kept(t.around, gone)
  {
    if n == t.root {
      KeptTwice(t.around, gone, n);
    } else {
      KeptSame(t.around, gone, gone + {n});
    }
  }

  /** Takes n out of the tree; a node without a parent stays as it is. */
  method RemoveNode(n: DomNode, ghost t: Layout, ghost gone: set<DomNode>)
    requires IsTree(t) && Stands(t, gone) && n in t.nodes && n !in gone
    modifies t.nodes, Outer(t)
    ensures Stands(t, if t.up[n] == null then gone else gone + {n})
  {
    var par := n.parent;
    if par != null {
      ParentIsOther(t, n);
      KeptAround(t, gone, n);
      forall m | m in t.nodes
        ensures Kept(t.kids[m], gone + {n}) ==
                if m == par then Kept(Kept(t.kids[m], gone), {n}) else Kept(t.kids[m], gone)
      {
        KeptOneLess(t, gone, n, m);
      }
      RemoveChild(par, n);
      forall m | m in t.nodes
        ensures m.children == Kept(t.kids[m], gone + {n}) && m.parent == if m in gone + {n} then null else t.up[m]
      {
        assert m == n || m.parent == old(m.parent);
        assert m == par || m.children == old(m.children);
      }
      forall m | m in Outer(t) ensures m.children == Kept(t.around, gone + {n}) {
        assert m == par || m.children == old(m.children);
        assert m == par <==> n == t.root;
      }
      assert Stands(t, gone + {n});
    }
  }
}
