/** The deleter of net/http/domclean2/05_breakout_imgs_from_a_trees.go working in place on linked
    nodes, with the set of splitting-path nodes it collects. It does to the linked tree what
    Breakout.Delete does to the tree's value. */
module ImageDeleter {

  import opened Dom
  import opened Breakout

  /** A subtree of a layout spelled out. */
  datatype Shape = Shape(nd: DomNode, kids: seq<Shape>)

  ghost function Nodes(s: Shape): (r: set<DomNode>)
    decreases s
  {
    {s.nd} + NodesAmong(s.kids)
  }

  ghost function NodesAmong(ks: seq<Shape>): (r: set<DomNode>)
    decreases ks
  {
    if ks == [] then {} else Nodes(ks[0]) + NodesAmong(ks[1..])
  }

  /** s is the subtree at s.nd, and no node is in it twice. */
  ghost predicate Fits(t: Layout, s: Shape)
    requires IsTree(t)
    decreases s
  {
    s.nd in t.nodes && s.nd !in NodesAmong(s.kids) && FitsAll(t, t.kids[s.nd], s.kids)
  }

  ghost predicate FitsAll(t: Layout, ns: seq<DomNode>, ks: seq<Shape>)
    requires IsTree(t)
    decreases ks
  {
    if ks == [] then ns == []
    else ns != [] && ks[0].nd == ns[0] && Fits(t, ks[0]) && Nodes(ks[0]) !! NodesAmong(ks[1..])
         && FitsAll(t, ns[1..], ks[1..])
  }

  ghost function Value(s: Shape): (r: Tree)
    decreases s
  {
    Node(s.nd.kind, s.nd.data, s.nd.href, ValueAmong(s.kids))
  }

  ghost function ValueAmong(ks: seq<Shape>): (r: seq<Tree>)
    ensures r == [] <==> ks == []
    decreases ks
  {
    if ks == [] then [] else [Value(ks[0])] + ValueAmong(ks[1..])
  }

  lemma ValueHead(ks: seq<Shape>)
    requires ks != []
    ensures ValueAmong(ks)[0] == Value(ks[0]) && ValueAmong(ks)[1..] == ValueAmong(ks[1..])
  {
  }

  ghost predicate HasImg(s: Shape) {
    ImgIn(Value(s))
  }

  ghost predicate HasImgAmong(ks: seq<Shape>) {
    ImgAmong(ValueAmong(ks))
  }

  lemma HasImgHead(ks: seq<Shape>)
    requires ks != []
    ensures HasImgAmong(ks) <==> HasImg(ks[0]) || HasImgAmong(ks[1..])
  {
    ValueHead(ks);
  }

  /** The nodes the deleter unhooks at and below s. */
  ghost function Gone(until: bool, s: Shape, found: bool): (r: set<DomNode>)
    decreases s
  {
    GoneAmong(until, s.kids, found || s.nd.data == "img")
    + if Delete(until, Value(s), found) == [] then {s.nd} else {}
  }

  ghost function GoneAmong(until: bool, ks: seq<Shape>, found: bool): (r: set<DomNode>)
    decreases ks
  {
    if ks == [] then {} else Gone(until, ks[0], found) + GoneAmong(until, ks[1..], found || HasImg(ks[0]))
  }

  lemma {:induction false} GoneIsBelow(until: bool, s: Shape, found: bool)
    ensures Gone(until, s, found) <= Nodes(s)
    decreases s
  {
    GoneAmongIsBelow(until, s.kids, found || s.nd.data == "img");
  }

  lemma {:induction false} GoneAmongIsBelow(until: bool, ks: seq<Shape>, found: bool)
    ensures GoneAmong(until, ks, found) <= NodesAmong(ks)
    decreases ks
  {
    if ks != [] {
      GoneIsBelow(until, ks[0], found);
      GoneAmongIsBelow(until, ks[1..], found || HasImg(ks[0]));
    }
  }

  /** The ancestors of a node. */
  ghost function Above(t: Layout, n: DomNode): (r: set<DomNode>)
    requires IsTree(t) && n in t.nodes
    decreases t.depth[n]
  {
    if n == t.root then {}
    else
      assert t.depth[t.up[n]] < t.depth[n] by { UpIsHigher(t, n); }
      {t.up[n]} + Above(t, t.up[n])
  }

  lemma UpIsHigher(t: Layout, n: DomNode)
    requires IsTree(t) && n in t.nodes && n != t.root
    ensures t.up[n] in t.nodes && t.depth[n] == t.depth[t.up[n]] + 1
  {
    var i :| 0 <= i < |t.kids[t.up[n]]| && t.kids[t.up[n]][i] == n;
  }

  lemma {:induction false} AboveIsHigher(t: Layout, n: DomNode)
    requires IsTree(t) && n in t.nodes
    ensures forall m :: m in Above(t, n) ==> m in t.nodes && t.depth[m] < t.depth[n]
    decreases t.depth[n]
  {
    if n != t.root {
      UpIsHigher(t, n);
      AboveIsHigher(t, t.up[n]);
    }
  }

  lemma {:induction false} BelowIsDeeper(t: Layout, n: DomNode, s: Shape)
    requires IsTree(t) && Fits(t, s)
    ensures forall m :: m in Nodes(s) ==> m in t.nodes && t.depth[m] >= t.depth[s.nd]
    decreases s
  {
    BelowAllDeeper(t, s.nd, t.kids[s.nd], s.kids);
  }

  lemma {:induction false} BelowAllDeeper(t: Layout, n: DomNode, ns: seq<DomNode>, ks: seq<Shape>)
    requires IsTree(t) && FitsAll(t, ns, ks) && n in t.nodes
    requires forall c :: c in ns ==> c in t.nodes && t.depth[c] == t.depth[n] + 1
    ensures forall m :: m in NodesAmong(ks) ==> m in t.nodes && t.depth[m] > t.depth[n]
    decreases ks
  {
    if ks != [] {
      BelowIsDeeper(t, n, ks[0]);
      BelowAllDeeper(t, n, ns[1..], ks[1..]);
    }
  }

  // ------------------------------------------------------------------ the deleter in place

  /** The splitting path after a part below `above` has been gone through: if an image was met, all of
      `above` is on it, and otherwise nothing of `above` or the part `below` has been added. */
  ghost predicate Marked(base: set<DomNode>, above: set<DomNode>, below: set<DomNode>, met: bool, path: set<DomNode>) {
    if met then base + above <= path <= base + above + below else path == base
  }

  lemma MarkedStep(base: set<DomNode>, above: set<DomNode>, all: set<DomNode>, met: bool, path: set<DomNode>,
                   part: set<DomNode>, more: bool, after: set<DomNode>)
    requires Marked(base, above, all, met, path) && Marked(path, above, part, more, after) && part <= all
    ensures Marked(base, above, all, met || more, after)
  {
  }

  /** From the children of a node to the node: `here` tells whether it is an image itself. */
  lemma MarkedUp(base: set<DomNode>, above: set<DomNode>, n: DomNode, kids: set<DomNode>, here: bool, below: bool,
                 path: set<DomNode>)
    requires n !in base && n !in above && n !in kids
    requires Marked(base + if here then above else {}, {n} + above, kids, below, path)
    ensures Marked(base, above, {n} + kids, here || below, path) && (n in path <==> below)
  {
  }

  lemma GoneUp(until: bool, s: Shape, found: bool, gone: set<DomNode>)
    ensures gone + Gone(until, s, found) ==
            gone + GoneAmong(until, s.kids, found || s.nd.data == "img")
            + if Delete(until, Value(s), found) == [] then {s.nd} else {}
  {
  }

  lemma GoneStep(until: bool, ks: seq<Shape>, found: bool, gone: set<DomNode>)
    requires ks != []
    ensures gone + GoneAmong(until, ks, found) ==
            gone + Gone(until, ks[0], found) + GoneAmong(until, ks[1..], found || HasImg(ks[0]))
  {
  }

  /** What holds while the children of n are gone through: `ks` are still to come, `gone` is
      unhooked so far, `path` collected so far. */
  ghost predicate Midway(t: Layout, n: DomNode, ks: seq<Shape>, gone: set<DomNode>, path: set<DomNode>)
    requires IsTree(t) && n in t.nodes
  {
    && n !in gone && Above(t, n) !! gone
    && NodesAmong(ks) !! gone && NodesAmong(ks) !! path
    && n !in NodesAmong(ks) && NodesAmong(ks) !! Above(t, n)
  }

  /** Going through one child keeps what holds midway. */
  lemma MidwayStep(t: Layout, n: DomNode, until: bool, ns: seq<DomNode>, ks: seq<Shape>, found: bool,
                   gone: set<DomNode>, path: set<DomNode>, out: set<DomNode>, after: set<DomNode>)
    requires IsTree(t) && n in t.nodes && Midway(t, n, ks, gone, path) && ks != [] && FitsAll(t, ns, ks)
    requires out == gone + Gone(until, ks[0], found)
    requires Marked(path, {n} + Above(t, n), Nodes(ks[0]), HasImg(ks[0]), after)
    ensures Midway(t, n, ks[1..], out, after)
  {
    GoneIsBelow(until, ks[0], found);
  }

  lemma {:induction false} FitsSuffix(t: Layout, ns: seq<DomNode>, ks: seq<Shape>, i: nat)
    requires IsTree(t) && FitsAll(t, ns, ks) && i <= |ns|
    ensures |ns| == |ks| && FitsAll(t, ns[i..], ks[i..]) && NodesAmong(ks[i..]) <= NodesAmong(ks)
  {
    if i > 0 {
      FitsSuffix(t, ns[1..], ks[1..], i - 1);
      assert ns[1..][i - 1..] == ns[i..] && ks[1..][i - 1..] == ks[i..];
    } else {
      FitsLength(t, ns, ks);
      assert ns[0..] == ns && ks[0..] == ks;
    }
  }

  lemma NextKid(t: Layout, n: DomNode, ns: seq<DomNode>, ks: seq<Shape>, i: nat)
    requires IsTree(t) && n in t.nodes && ns == t.kids[n] && i < |ns| && FitsAll(t, ns, ks)
    ensures i < |ks| && ks[i..] != [] && ns[i..] != [] && ns[i..][0] == ns[i] && ks[i..][0] == ks[i]
    ensures FitsAll(t, ns[i..], ks[i..]) && Nodes(ks[i]) <= NodesAmong(ks)
    ensures ns[i] in t.nodes && ns[i] != t.root && Above(t, ns[i]) == {n} + Above(t, n)
  {
    FitsSuffix(t, ns, ks, i);
  }

  /** Where the loop over the children of n starts, after an image has marked its ancestors. */
  lemma MidwayStart(t: Layout, n: DomNode, s: Shape, gone: set<DomNode>, path: set<DomNode>)
    requires IsTree(t) && Fits(t, s) && s.nd == n
    requires Nodes(s) !! gone && Above(t, n) !! gone && Nodes(s) !! path
    ensures Midway(t, n, s.kids, gone, path + if n.data == "img" then Above(t, n) else {})
    ensures Nodes(s) !! Above(t, n)
    ensures Kept(t.kids[n], gone) == t.kids[n]
  {
    BelowAllDeeper(t, n, t.kids[n], s.kids);
    AboveIsHigher(t, n);
    RootsAmong(t, t.kids[n], s.kids);
    KeptAll(t.kids[n], gone);
  }

  lemma {:induction false} RootsAmong(t: Layout, ns: seq<DomNode>, ks: seq<Shape>)
    requires IsTree(t) && FitsAll(t, ns, ks)
    ensures forall c :: c in ns ==> c in NodesAmong(ks)
  {
    if ks != [] {
      RootsAmong(t, ns[1..], ks[1..]);
    }
  }

  lemma {:induction false} FitsLength(t: Layout, ns: seq<DomNode>, ks: seq<Shape>)
    requires IsTree(t) && FitsAll(t, ns, ks)
    ensures |ns| == |ks|
  {
    if ks != [] {
      FitsLength(t, ns[1..], ks[1..]);
    }
  }

  /** How far the loop over the children ks of n has come when `left` are still to come: `all` will
      be gone at the end, `base` was on the path at the beginning. */
  ghost predicate Progress(t: Layout, n: DomNode, until: bool, ks: seq<Shape>, left: seq<Shape>, met: bool,
                           gone: set<DomNode>, path: set<DomNode>, found: bool,
                           all: set<DomNode>, base: set<DomNode>)
    requires IsTree(t) && n in t.nodes
  {
    && Midway(t, n, left, gone, path)
    && gone + GoneAmong(until, left, found) == all
    && (met || HasImgAmong(left)) == HasImgAmong(ks)
    && Marked(base, {n} + Above(t, n), NodesAmong(ks), met, path)
  }

  lemma ProgressStart(t: Layout, n: DomNode, until: bool, ks: seq<Shape>,
                      gone: set<DomNode>, path: set<DomNode>, found: bool)
    requires IsTree(t) && n in t.nodes && FitsAll(t, t.kids[n], ks) && Midway(t, n, ks, gone, path)
    ensures ks == ks[0..] && |t.kids[n]| == |ks|
    ensures Progress(t, n, until, ks, ks, false, gone, path, found, gone + GoneAmong(until, ks, found), path)
  {
    FitsLength(t, t.kids[n], ks);
  }

  lemma ProgressEnd(t: Layout, n: DomNode, until: bool, ks: seq<Shape>, met: bool,
                    gone: set<DomNode>, path: set<DomNode>, found: bool, all: set<DomNode>, base: set<DomNode>)
    requires IsTree(t) && n in t.nodes && Progress(t, n, until, ks, [], met, gone, path, found, all, base)
    ensures gone == all && met == HasImgAmong(ks)
    ensures Marked(base, {n} + Above(t, n), NodesAmong(ks), HasImgAmong(ks), path)
  {
  }

  lemma ProgressStep(t: Layout, n: DomNode, until: bool, ks: seq<Shape>, ns: seq<DomNode>, left: seq<Shape>,
                     met: bool, gone: set<DomNode>, path: set<DomNode>, found: bool,
                     all: set<DomNode>, base: set<DomNode>, out: set<DomNode>, after: set<DomNode>)
    requires IsTree(t) && n in t.nodes && left != [] && FitsAll(t, ns, left) && Nodes(left[0]) <= NodesAmong(ks)
    requires Progress(t, n, until, ks, left, met, gone, path, found, all, base)
    requires out == gone + Gone(until, left[0], found)
    requires Marked(path, {n} + Above(t, n), Nodes(left[0]), HasImg(left[0]), after)
    ensures Progress(t, n, until, ks, left[1..], met || HasImg(left[0]), out, after,
                     found || HasImg(left[0]), all, base)
  {
    HasImgHead(left);
    GoneStep(until, left, found, gone);
    MidwayStep(t, n, until, ns, left, found, gone, path, out, after);
    MarkedStep(base, {n} + Above(t, n), NodesAmong(ks), met, path, Nodes(left[0]), HasImg(left[0]), after);
  }

  /** Progress with the children from the i-th on still to come. */
  ghost predicate At(t: Layout, n: DomNode, until: bool, cc: seq<DomNode>, ks: seq<Shape>, i: nat, met: bool,
                     gone: set<DomNode>, path: set<DomNode>, found: bool, all: set<DomNode>, base: set<DomNode>)
    requires IsTree(t) && n in t.nodes
  {
    && cc == t.kids[n] && FitsAll(t, cc, ks) && i <= |cc| == |ks|
    && Progress(t, n, until, ks, ks[i..], met, gone, path, found, all, base)
  }

  lemma AtStart(t: Layout, n: DomNode, until: bool, cc: seq<DomNode>, ks: seq<Shape>,
                gone: set<DomNode>, path: set<DomNode>, found: bool)
    requires IsTree(t) && n in t.nodes && cc == t.kids[n] && FitsAll(t, cc, ks) && Midway(t, n, ks, gone, path)
    ensures At(t, n, until, cc, ks, 0, false, gone, path, found, gone + GoneAmong(until, ks, found), path)
  {
    ProgressStart(t, n, until, ks, gone, path, found);
    assert ks[0..] == ks;
  }

  lemma AtEnd(t: Layout, n: DomNode, until: bool, cc: seq<DomNode>, ks: seq<Shape>, met: bool,
              gone: set<DomNode>, path: set<DomNode>, found: bool, all: set<DomNode>, base: set<DomNode>)
    requires IsTree(t) && n in t.nodes && At(t, n, until, cc, ks, |cc|, met, gone, path, found, all, base)
    ensures gone == all && met == HasImgAmong(ks)
    ensures Marked(base, {n} + Above(t, n), NodesAmong(ks), HasImgAmong(ks), path)
  {
    assert ks[|cc|..] == [];
    ProgressEnd(t, n, until, ks, met, gone, path, found, all, base);
  }

  /** The child to be gone through next. */
  lemma AtChild(t: Layout, n: DomNode, until: bool, cc: seq<DomNode>, ks: seq<Shape>, i: nat, k: Shape, met: bool,
                gone: set<DomNode>, path: set<DomNode>, found: bool, all: set<DomNode>, base: set<DomNode>)
    requires IsTree(t) && n in t.nodes && i < |cc| == |ks| && k == ks[i]
    requires At(t, n, until, cc, ks, i, met, gone, path, found, all, base)
    ensures Fits(t, k) && k.nd == cc[i]
    ensures cc[i] in t.nodes && cc[i] != t.root && Above(t, cc[i]) == {n} + Above(t, n)
    ensures Nodes(k) !! gone && Above(t, cc[i]) !! gone && Nodes(k) !! path
  {
    NextKid(t, n, cc, ks, i);
  }

  lemma AtNext(t: Layout, n: DomNode, until: bool, cc: seq<DomNode>, ks: seq<Shape>, i: nat, k: Shape, met: bool,
               gone: set<DomNode>, path: set<DomNode>, found: bool, all: set<DomNode>, base: set<DomNode>,
               out: set<DomNode>, after: set<DomNode>)
    requires IsTree(t) && n in t.nodes && i < |cc| == |ks| && k == ks[i]
    requires At(t, n, until, cc, ks, i, met, gone, path, found, all, base)
    requires out == gone + Gone(until, k, found)
    requires Marked(path, {n} + Above(t, n), Nodes(k), HasImg(k), after)
    ensures At(t, n, until, cc, ks, i + 1, met || HasImg(k), out, after, found || HasImg(k), all, base)
  {
    NextKid(t, n, cc, ks, i);
    ProgressStep(t, n, until, ks, cc[i..], ks[i..], met, gone, path, found, all, base, out, after);
    assert ks[i..][1..] == ks[i + 1..];
  }

  class Deleter {
    const until: bool
    var splitPath: set<DomNode>

    constructor (until: bool)
      ensures this.until == until && splitPath == {}
    {
      this.until, splitPath := until, {};
    }

    /** Puts all ancestors of n on the splitting path. */
    method MarkAncestors(n: DomNode, ghost t: Layout, ghost gone: set<DomNode>)
      requires IsDocument(t) && Stands(t, gone) && n in t.nodes && n !in gone && Above(t, n) !! gone
      modifies this`splitPath
      ensures splitPath == old(splitPath) + Above(t, n)
    {
      var par := n.parent;
      ghost var at := n;
      while par != null
        invariant at in t.nodes && at !in gone && Above(t, at) !! gone && par == t.up[at]
        invariant splitPath + Above(t, at) == old(splitPath) + Above(t, n)
        decreases t.depth[at]
      {
        UpIsHigher(t, at);
        splitPath := splitPath + {par};
        at := par;
        par := par.parent;
      }
    }

    /** If n is an image, one has been met and n's ancestors are on the splitting path. */
    method MeetImage(n: DomNode, found: bool, ghost t: Layout, ghost gone: set<DomNode>) returns (r: bool)
      requires IsDocument(t) && Stands(t, gone) && n in t.nodes && n !in gone && Above(t, n) !! gone
      modifies this`splitPath
      ensures r == (found || n.data == "img")
      ensures splitPath == old(splitPath) + if n.data == "img" then Above(t, n) else {}
    {
      r := found;
      if n.data == "img" {
        r := true;
        MarkAncestors(n, t, gone);
      }
    }

    /** Goes through n's subtree, `found` telling whether an image was met before; unhooks what does
        not belong to this side of the image and returns whether one has been met by now. */
    method Fc(n: DomNode, lvl: nat, found: bool, ghost t: Layout, ghost s: Shape, ghost gone: set<DomNode>)
      returns (r: bool, ghost out: set<DomNode>)
      requires IsDocument(t) && Stands(t, gone) && Fits(t, s) && s.nd == n
      requires Nodes(s) !! gone && Above(t, n) !! gone && Nodes(s) !! splitPath
      requires lvl > 0 ==> n != t.root
      modifies this`splitPath, t.nodes
      ensures r == (found || HasImg(s)) && Stands(t, out)
      ensures out == gone + if lvl > 0 then Gone(until, s, found)
                            else GoneAmong(until, s.kids, found || n.data == "img")
      ensures Marked(old(splitPath), Above(t, n), Nodes(s), HasImg(s), splitPath)
      decreases s, 2
    {
      r, out := FcBelow(n, lvl, found, t, s, gone);
      GoneUp(until, s, found, gone);
      if lvl > 0 {
        out := Remove(n, r, t, s, found, out);
      }
    }

    /** Fc up to the removal of n itself. */
    method FcBelow(n: DomNode, lvl: nat, found: bool, ghost t: Layout, ghost s: Shape, ghost gone: set<DomNode>)
      returns (r: bool, ghost out: set<DomNode>)
      requires IsDocument(t) && Stands(t, gone) && Fits(t, s) && s.nd == n
      requires Nodes(s) !! gone && Above(t, n) !! gone && Nodes(s) !! splitPath
      modifies this`splitPath, t.nodes
      ensures r == (found || HasImg(s)) && Stands(t, out) && n !in out
      ensures out == gone + GoneAmong(until, s.kids, found || n.data == "img")
      ensures Marked(old(splitPath), Above(t, n), Nodes(s), HasImg(s), splitPath)
      ensures n in splitPath <==> HasImgAmong(s.kids)
      decreases s, 1
    {
      MidwayStart(t, n, s, gone, splitPath);
      r := MeetImage(n, found, t, gone);
      GoneAmongIsBelow(until, s.kids, r);
      r, out := FcChildren(n, n.children, lvl, r, t, s.kids, gone);
      MarkedUp(old(splitPath), Above(t, n), n, NodesAmong(s.kids), n.data == "img", HasImgAmong(s.kids), splitPath);
    }

    /** Unhooks n itself if it does not belong to this side of the image. */
    method Remove(n: DomNode, r: bool, ghost t: Layout, ghost s: Shape, ghost found: bool, ghost below: set<DomNode>)
      returns (ghost out: set<DomNode>)
      requires IsDocument(t) && Stands(t, below) && n in t.nodes && n !in below && n != t.root
      requires s.nd == n && r == (found || HasImg(s)) && (n in splitPath <==> HasImgAmong(s.kids))
      modifies t.nodes
      ensures Stands(t, out) && out == below + if Delete(until, Value(s), found) == [] then {n} else {}
    {
      out := below + if Delete(until, Value(s), found) == [] then {n} else {};
      assert below + {} == below;
      if n.data == "img" {
        RemoveNode(n, t, below);
      } else {
        if !until && !r && n !in splitPath {
          RemoveNode(n, t, below);
        }
        if until && r && n !in splitPath {
          RemoveNode(n, t, below);
        }
      }
    }

    /** The loop over the children of n, whose list was copied before. */
    method FcChildren(n: DomNode, cc: seq<DomNode>, lvl: nat, found: bool,
                      ghost t: Layout, ghost ks: seq<Shape>, ghost gone: set<DomNode>)
      returns (r: bool, ghost out: set<DomNode>)
      requires IsDocument(t) && Stands(t, gone) && n in t.nodes && cc == t.kids[n] && FitsAll(t, cc, ks)
      requires Midway(t, n, ks, gone, splitPath)
      modifies this`splitPath, t.nodes
      ensures r == (found || HasImgAmong(ks))
      ensures Stands(t, out) && out == gone + GoneAmong(until, ks, found)
      ensures Marked(old(splitPath), {n} + Above(t, n), NodesAmong(ks), HasImgAmong(ks), splitPath)
      decreases ks
    {
      r, out := found, gone;
      ghost var met, base := false, splitPath;
      ghost var all := gone + GoneAmong(until, ks, found);
      AtStart(t, n, until, cc, ks, gone, splitPath, found);
      var i := 0;
      while i < |cc|
        invariant i <= |cc| && Stands(t, out) && r == (found || met)
        invariant At(t, n, until, cc, ks, i, met, out, splitPath, r, all, base)
      {
        r, out := FcFirst(n, cc, i, lvl, r, t, ks, ks[i], out, met, all, base);
        met := met || HasImg(ks[i]);
        i := i + 1;
      }
      AtEnd(t, n, until, cc, ks, met, out, splitPath, r, all, base);
    }

    /** One round of the loop. */
    method FcFirst(n: DomNode, cc: seq<DomNode>, i: nat, lvl: nat, found: bool, ghost t: Layout,
                   ghost ks: seq<Shape>, ghost k: Shape, ghost gone: set<DomNode>, ghost met: bool,
                   ghost all: set<DomNode>, ghost base: set<DomNode>)
      returns (r: bool, ghost out: set<DomNode>)
      requires IsDocument(t) && Stands(t, gone) && n in t.nodes && i < |cc| == |ks| && k == ks[i]
      requires At(t, n, until, cc, ks, i, met, gone, splitPath, found, all, base)
      modifies this`splitPath, t.nodes
      ensures r == (found || HasImg(k)) && Stands(t, out)
      ensures At(t, n, until, cc, ks, i + 1, met || HasImg(k), out, splitPath, r, all, base)
      decreases k, 3
    {
      AtChild(t, n, until, cc, ks, i, k, met, gone, splitPath, found, all, base);
      ghost var path := splitPath;
      r, out := Fc(cc[i], lvl + 1, found, t, k, gone);
      AtNext(t, n, until, cc, ks, i, k, met, gone, path, found, all, base, out, splitPath);
    }
  }

  // ------------------------------------------------------------------ what the linked tree reads as

  /** Following the links from n gives the tree v. */
  ghost predicate Reads(nodes: set<DomNode>, n: DomNode, v: Tree)
    reads nodes
    decreases v
  {
    && n in nodes && n.kind == v.kind && n.data == v.data && n.href == v.href
    && ReadsAll(nodes, n.children, v.kids)
  }

  ghost predicate ReadsAll(nodes: set<DomNode>, ns: seq<DomNode>, vs: seq<Tree>)
    reads nodes
    decreases vs
  {
    if vs == [] then ns == []
    else ns != [] && Reads(nodes, ns[0], vs[0]) && ReadsAll(nodes, ns[1..], vs[1..])
  }

  /** The share of one child in what is gone. */
  lemma GoneHead(t: Layout, until: bool, ns: seq<DomNode>, ks: seq<Shape>, found: bool, gone: set<DomNode>)
    requires IsTree(t) && ks != [] && FitsAll(t, ns, ks)
    requires gone * NodesAmong(ks) == GoneAmong(until, ks, found)
    ensures var k := ks[0];
            && gone * NodesAmong(k.kids) == GoneAmong(until, k.kids, found || k.nd.data == "img")
            && (k.nd in gone <==> Delete(until, Value(k), found) == [])
            && gone * NodesAmong(ks[1..]) == GoneAmong(until, ks[1..], found || HasImg(k))
  {
    var k := ks[0];
    GoneIsBelow(until, k, found);
    GoneAmongIsBelow(until, k.kids, found || k.nd.data == "img");
    GoneAmongIsBelow(until, ks[1..], found || HasImg(k));
    assert gone * Nodes(k) == Gone(until, k, found);
  }

  /** Once the nodes are unhooked, following the links gives what Breakout.DeleteAmong leaves. */
  lemma {:induction false} RemainsRead(t: Layout, until: bool, ns: seq<DomNode>, ks: seq<Shape>, found: bool,
                                       gone: set<DomNode>)
    requires IsTree(t) && Stands(t, gone) && FitsAll(t, ns, ks)
    requires gone * NodesAmong(ks) == GoneAmong(until, ks, found)
    ensures ReadsAll(t.nodes, Kept(ns, gone), DeleteAmong(until, ValueAmong(ks), found))
    decreases ks
  {
    if ks != [] {
      var k := ks[0];
      GoneHead(t, until, ns, ks, found, gone);
      RemainsRead(t, until, ns[1..], ks[1..], found || HasImg(k), gone);
      DeleteHead(until, ks, found);
      KeptHead(ns, gone);
      if k.nd !in gone {
        RemainsRead(t, until, t.kids[k.nd], k.kids, found, gone);
        var v := Value(k).(kids := DeleteAmong(until, ValueAmong(k.kids), found));
        ReadsCons(t.nodes, k.nd, Kept(ns[1..], gone), v, DeleteAmong(until, ValueAmong(ks[1..]), found || HasImg(k)));
      }
    }
  }

  lemma KeptHead(ns: seq<DomNode>, gone: set<DomNode>)
    requires ns != []
    ensures Kept(ns, gone) == if ns[0] in gone then Kept(ns[1..], gone) else [ns[0]] + Kept(ns[1..], gone)
  {
  }

  /** What the deleter leaves of a list, by its first member. */
  lemma DeleteHead(until: bool, ks: seq<Shape>, found: bool)
    requires ks != []
    ensures var k := ks[0];
            var rest := DeleteAmong(until, ValueAmong(ks[1..]), found || HasImg(k));
            DeleteAmong(until, ValueAmong(ks), found) ==
              if Delete(until, Value(k), found) == [] then rest
              else [Value(k).(kids := DeleteAmong(until, ValueAmong(k.kids), found))] + rest
    ensures Delete(until, Value(ks[0]), found) != [] ==> ks[0].nd.data != "img"
  {
    ValueHead(ks);
    if Delete(until, Value(ks[0]), found) == [] {
      var rest := DeleteAmong(until, ValueAmong(ks[1..]), found || HasImg(ks[0]));
      assert [] + rest == rest;
    }
  }

  lemma ReadsCons(nodes: set<DomNode>, n: DomNode, ns: seq<DomNode>, v: Tree, vs: seq<Tree>)
    requires Reads(nodes, n, v) && ReadsAll(nodes, ns, vs)
    ensures ReadsAll(nodes, [n] + ns, [v] + vs)
  {
    assert ([n] + ns)[1..] == ns && ([v] + vs)[1..] == vs;
  }

  /** From the children of an anchor to the anchor itself. */
  lemma AnchorReads(n: DomNode, until: bool, t: Layout, s: Shape, out: set<DomNode>)
    requires IsTree(t) && Stands(t, out) && Fits(t, s) && s.nd == n && n.data != "img"
    requires out == {} + GoneAmong(until, s.kids, false)
    ensures Reads(t.nodes, n, Top(until, Value(s)))
    ensures Stands(t, GoneAmong(until, s.kids, false))
  {
    GoneAmongIsBelow(until, s.kids, false);
    assert out == GoneAmong(until, s.kids, false) && out * NodesAmong(s.kids) == out;
    RemainsRead(t, until, t.kids[n], s.kids, false, out);
    assert n.children == Kept(t.kids[n], out);
  }

  /** Running the deleter on an anchor leaves, link by link, the tree Breakout.Top describes. */
  method DeleteOneSide(n: DomNode, until: bool, ghost t: Layout, ghost s: Shape)
    requires IsDocument(t) && Stands(t, {}) && Fits(t, s) && s.nd == n && n.data != "img"
    modifies t.nodes
    ensures Reads(t.nodes, n, Top(until, Value(s)))
    ensures Stands(t, GoneAmong(until, s.kids, false))
  {
    var deleter := new Deleter(until);
    var r, out := deleter.Fc(n, 0, false, t, s, {});
    AnchorReads(n, until, t, s, out);
  }
}
