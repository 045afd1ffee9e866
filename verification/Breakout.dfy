/** Splitting anchors at their images (net/http/domclean2/05_breakout_imgs_from_a_trees.go), on tree values. */
module Breakout {

  import opened Wrappers
  import opened Basics
  import opened Dom

  /** A node with everything below it; href is the attribute an anchor carries. */
  datatype Tree = Node(kind: Kind, data: string, href: string, kids: seq<Tree>)

  /** What the deleter takes for an image: any kind of node, by its data. */
  predicate Img(t: Tree) {
    t.data == "img"
  }

  /** What the search takes for an image. */
  predicate ImgElement(t: Tree) {
    t.kind == ElementNode && t.data == "img"
  }

  predicate Anchor(t: Tree) {
    t.kind == ElementNode && t.data == "a"
  }

  predicate ImgIn(t: Tree)
    decreases t
  {
    Img(t) || ImgAmong(t.kids)
  }

  predicate ImgAmong(ts: seq<Tree>)
    decreases ts
  {
    ts != [] && (ImgIn(ts[0]) || ImgAmong(ts[1..]))
  }

  // ------------------------------------------------------------------ the search

  /** The first image element in document order with its level. */
  function SearchImg(n: Tree, lvl: nat): (r: Option<(Tree, nat)>)
    decreases n
  {
    if ImgElement(n) then Some((n, lvl)) else SearchAmong(n.kids, lvl + 1)
  }

  function SearchAmong(cs: seq<Tree>, lvl: nat): (r: Option<(Tree, nat)>)
    decreases cs
  {
    if cs == [] then None
    else match SearchImg(cs[0], lvl)
      case Some(hit) => Some(hit)
      case None => SearchAmong(cs[1..], lvl)
  }

  /** Every node below and including n, in document order, with its level. */
  function Preorder(n: Tree, lvl: nat): (r: seq<(Tree, nat)>)
    decreases n
  {
    [(n, lvl)] + PreorderAmong(n.kids, lvl + 1)
  }

  function PreorderAmong(cs: seq<Tree>, lvl: nat): (r: seq<(Tree, nat)>)
    decreases cs
  {
    if cs == [] then [] else Preorder(cs[0], lvl) + PreorderAmong(cs[1..], lvl)
  }

  /** Whether r is the first image element of the listing. */
  ghost predicate FirstImg(listing: seq<(Tree, nat)>, r: Option<(Tree, nat)>) {
    match r
    case None => forall i :: 0 <= i < |listing| ==> !ImgElement(listing[i].0)
    case Some(hit) => exists k :: 0 <= k < |listing| && listing[k] == hit && ImgElement(hit.0)
                                  && forall i :: 0 <= i < k ==> !ImgElement(listing[i].0)
  }

  lemma FirstOfTwo(a: seq<(Tree, nat)>, b: seq<(Tree, nat)>, ra: Option<(Tree, nat)>, rb: Option<(Tree, nat)>)
    requires FirstImg(a, ra) && FirstImg(b, rb)
    ensures FirstImg(a + b, if ra.Some? then ra else rb)
  {
    if ra.Some? {
      var k :| 0 <= k < |a| && a[k] == ra.value && ImgElement(ra.value.0)
               && forall i :: 0 <= i < k ==> !ImgElement(a[i].0);
      assert (a + b)[k] == ra.value;
    } else if rb.Some? {
      var k :| 0 <= k < |b| && b[k] == rb.value && ImgElement(rb.value.0)
               && forall i :: 0 <= i < k ==> !ImgElement(b[i].0);
      assert (a + b)[|a| + k] == rb.value;
    }
  }

  /** The search finds the first image element of the whole document order, and its true level. */
  lemma {:induction false} SearchFindsFirst(n: Tree, lvl: nat)
    ensures FirstImg(Preorder(n, lvl), SearchImg(n, lvl))
    decreases n
  {
    var here := [(n, lvl)];
    if ImgElement(n) {
      assert Preorder(n, lvl)[0] == (n, lvl);
    } else {
      SearchAmongFindsFirst(n.kids, lvl + 1);
      FirstOfTwo(here, PreorderAmong(n.kids, lvl + 1), None, SearchAmong(n.kids, lvl + 1));
    }
  }

  lemma {:induction false} SearchAmongFindsFirst(cs: seq<Tree>, lvl: nat)
    ensures FirstImg(PreorderAmong(cs, lvl), SearchAmong(cs, lvl))
    decreases cs
  {
    if cs != [] {
      SearchFindsFirst(cs[0], lvl);
      SearchAmongFindsFirst(cs[1..], lvl);
      FirstOfTwo(Preorder(cs[0], lvl), PreorderAmong(cs[1..], lvl), SearchImg(cs[0], lvl), SearchAmong(cs[1..], lvl));
    }
  }

  // ------------------------------------------------------------------ the deleter

  /** What the deleter leaves of a node below the top: nothing or one node. `found` says whether an
      image was met before; a node with an image strictly below lies on the splitting path. */
  function Delete(until: bool, n: Tree, found: bool): (r: seq<Tree>)
    decreases n
  {
    if Img(n) then []
    else if until == (found || ImgAmong(n.kids)) && !ImgAmong(n.kids) then []
    else [n.(kids := DeleteAmong(until, n.kids, found))]
  }

  function DeleteAmong(until: bool, cs: seq<Tree>, found: bool): (r: seq<Tree>)
    decreases cs
  {
    if cs == [] then []
    else Delete(until, cs[0], found) + DeleteAmong(until, cs[1..], found || ImgIn(cs[0]))
  }

  /** The deleter called on a whole anchor: the top node always stays. */
  function Top(until: bool, n: Tree): (r: Tree) {
    n.(kids := DeleteAmong(until, n.kids, Img(n)))
  }

  /** What a node is, whatever hangs below it. */
  datatype Tag = Tag(kind: Kind, data: string, href: string)

  /** A text and all it stands under, from the top down. */
  datatype Line = Line(text: string, above: seq<Tag>)

  function Under(n: Tree, above: seq<Tag>): (r: seq<Tag>) {
    above + [Tag(n.kind, n.data, n.href)]
  }

  /** The texts of a tree that stands under `above`, in document order. */
  function Texts(n: Tree, above: seq<Tag>): (r: seq<Line>)
    decreases n
  {
    (if n.kind == TextNode then [Line(n.data, above)] else []) + TextsAmong(n.kids, Under(n, above))
  }

  function TextsAmong(cs: seq<Tree>, above: seq<Tag>): (r: seq<Line>)
    decreases cs
  {
    if cs == [] then [] else Texts(cs[0], above) + TextsAmong(cs[1..], above)
  }

  /** The texts that are neither at nor under a node taken for an image. */
  function TextsOutside(n: Tree, above: seq<Tag>): (r: seq<Line>)
    decreases n
  {
    if Img(n) then []
    else (if n.kind == TextNode then [Line(n.data, above)] else []) + TextsOutsideAmong(n.kids, Under(n, above))
  }

  function TextsOutsideAmong(cs: seq<Tree>, above: seq<Tag>): (r: seq<Line>)
    decreases cs
  {
    if cs == [] then [] else TextsOutside(cs[0], above) + TextsOutsideAmong(cs[1..], above)
  }

  /** Text nodes have no children, as in every parsed page. */
  predicate LeafTexts(n: Tree)
    decreases n
  {
    (n.kind == TextNode ==> n.kids == []) && LeafTextsAmong(n.kids)
  }

  predicate LeafTextsAmong(cs: seq<Tree>)
    decreases cs
  {
    cs == [] || (LeafTexts(cs[0]) && LeafTextsAmong(cs[1..]))
  }

  predicate NoText(n: Tree)
    decreases n
  {
    n.kind != TextNode && NoTextAmong(n.kids)
  }

  predicate NoTextAmong(cs: seq<Tree>)
    decreases cs
  {
    cs == [] || (NoText(cs[0]) && NoTextAmong(cs[1..]))
  }

  /** No text is at or under a node taken for an image. */
  predicate NoTextInImg(n: Tree)
    decreases n
  {
    (Img(n) ==> NoText(n)) && NoTextInImgAmong(n.kids)
  }

  predicate NoTextInImgAmong(cs: seq<Tree>)
    decreases cs
  {
    cs == [] || (NoTextInImg(cs[0]) && NoTextInImgAmong(cs[1..]))
  }

  /** A part without images stays whole before the image and goes whole behind it. */
  lemma {:induction false} PartWithoutImg(cs: seq<Tree>, above: seq<Tag>)
    requires !ImgAmong(cs)
    ensures DeleteAmong(true, cs, false) == cs && DeleteAmong(false, cs, false) == []
    ensures TextsOutsideAmong(cs, above) == TextsAmong(cs, above)
    decreases cs
  {
    if cs != [] {
      PartWithoutImg(cs[0].kids, Under(cs[0], above));
      PartWithoutImg(cs[1..], above);
      assert [cs[0]] + cs[1..] == cs;
    }
  }

  /** Behind the image the first tree keeps no text and the second one every text outside images. */
  lemma {:induction false} TextsBehind(cs: seq<Tree>, above: seq<Tag>)
    requires LeafTextsAmong(cs)
    ensures TextsAmong(DeleteAmong(true, cs, true), above) == []
    ensures TextsAmong(DeleteAmong(false, cs, true), above) == TextsOutsideAmong(cs, above)
    decreases cs
  {
    if cs != [] {
      TextsBehind(cs[0].kids, Under(cs[0], above));
      TextsBehind(cs[1..], above);
      TextsJoin(Delete(true, cs[0], true), DeleteAmong(true, cs[1..], true), above);
      TextsJoin(Delete(false, cs[0], true), DeleteAmong(false, cs[1..], true), above);
    }
  }

  lemma {:induction false} TextsJoin(a: seq<Tree>, b: seq<Tree>, above: seq<Tag>)
    ensures TextsAmong(a + b, above) == TextsAmong(a, above) + TextsAmong(b, above)
  {
    if a == [] {
      assert a + b == b;
    } else {
      TextsJoin(a[1..], b, above);
      assert (a + b)[0] == a[0] && (a + b)[1..] == a[1..] + b;
      Assoc(Texts(a[0], above), TextsAmong(a[1..], above), TextsAmong(b, above));
    }
  }

  /** What the deleter leaves of a part holding the first image has the texts its children's remains have. */
  lemma TextsOfPart(until: bool, c: Tree, above: seq<Tag>)
    requires ImgIn(c) && LeafTexts(c)
    ensures TextsAmong(Delete(until, c, false), above) ==
            if Img(c) then [] else TextsAmong(DeleteAmong(until, c.kids, false), Under(c, above))
  {
    if !Img(c) {
      var kept := c.(kids := DeleteAmong(until, c.kids, false));
      assert Delete(until, c, false) == [kept];
      assert [kept][1..] == [] && Texts(kept, above) == TextsAmong(kept.kids, Under(c, above));
    }
  }

  lemma Regroup<T>(a: seq<T>, b: seq<T>, c: seq<T>)
    ensures (a + []) + (b + c) == (a + b) + c
  {
  }

  /** One part that holds the first image: what comes before stays in front, the rest goes behind. */
  lemma PartWithImg(c: Tree, above: seq<Tag>)
    requires ImgIn(c) && LeafTexts(c)
    requires TextsAmong(DeleteAmong(true, c.kids, false), Under(c, above))
           + TextsAmong(DeleteAmong(false, c.kids, false), Under(c, above))
          == TextsOutsideAmong(c.kids, Under(c, above))
    ensures TextsAmong(Delete(true, c, false), above) + TextsAmong(Delete(false, c, false), above)
         == TextsOutside(c, above)
  {
    TextsOfPart(true, c, above);
    TextsOfPart(false, c, above);
  }

  /** So it is with the parts behind it. */
  lemma PartsWithImg(c: Tree, cs: seq<Tree>, above: seq<Tag>)
    requires LeafTextsAmong(cs)
    requires TextsAmong(Delete(true, c, false), above) + TextsAmong(Delete(false, c, false), above)
          == TextsOutside(c, above)
    ensures TextsAmong(Delete(true, c, false) + DeleteAmong(true, cs, true), above)
          + TextsAmong(Delete(false, c, false) + DeleteAmong(false, cs, true), above)
         == TextsOutside(c, above) + TextsOutsideAmong(cs, above)
  {
    TextsBehind(cs, above);
    TextsJoin(Delete(true, c, false), DeleteAmong(true, cs, true), above);
    TextsJoin(Delete(false, c, false), DeleteAmong(false, cs, true), above);
    Regroup(TextsAmong(Delete(true, c, false), above), TextsAmong(Delete(false, c, false), above),
            TextsOutsideAmong(cs, above));
  }

  /** Before the first image and behind it together: every text outside images, once, in order and
      under the same nodes. */
  lemma {:induction false} TextsSplit(cs: seq<Tree>, above: seq<Tag>)
    requires LeafTextsAmong(cs)
    ensures TextsAmong(DeleteAmong(true, cs, false), above) + TextsAmong(DeleteAmong(false, cs, false), above)
         == TextsOutsideAmong(cs, above)
    decreases cs
  {
    if cs == [] {
    } else if ImgIn(cs[0]) {
      TextsSplit(cs[0].kids, Under(cs[0], above));
      PartWithImg(cs[0], above);
      PartsWithImg(cs[0], cs[1..], above);
    } else {
      TextsSplit(cs[1..], above);
      PartWithoutImg(cs[0].kids, Under(cs[0], above));
      var before, behind := DeleteAmong(true, cs[1..], false), DeleteAmong(false, cs[1..], false);
      assert DeleteAmong(true, cs, false) == [cs[0]] + before && DeleteAmong(false, cs, false) == [] + behind;
      assert ([cs[0]] + before)[1..] == before && [] + behind == behind;
      Assoc(Texts(cs[0], above), TextsAmong(before, above), TextsAmong(behind, above));
    }
  }

  /** Splitting an anchor at its first image, whatever its depth and however many images follow,
      loses, duplicates and reorders no text outside images, and leaves each under the nodes it was
      under: the anchor with its link and all between. */
  lemma SplitKeepsTexts(n: Tree, above: seq<Tag>)
    requires Anchor(n) && LeafTexts(n)
    ensures Texts(Top(true, n), above) + Texts(Top(false, n), above) == TextsOutside(n, above)
  {
    TextsSplit(n.kids, Under(n, above));
  }

  lemma {:induction false} OutsideOrIn(n: Tree, above: seq<Tag>)
    ensures Texts(n, above) == [] <==> NoText(n)
    ensures |TextsOutside(n, above)| <= |Texts(n, above)|
    ensures |TextsOutside(n, above)| == |Texts(n, above)| <==> NoTextInImg(n)
    ensures NoTextInImg(n) ==> TextsOutside(n, above) == Texts(n, above)
    decreases n
  {
    OutsideOrInAmong(n.kids, Under(n, above));
    if Img(n) && NoText(n) {
      NoTextsAmong(n.kids);
    }
  }

  lemma {:induction false} OutsideOrInAmong(cs: seq<Tree>, above: seq<Tag>)
    ensures TextsAmong(cs, above) == [] <==> NoTextAmong(cs)
    ensures |TextsOutsideAmong(cs, above)| <= |TextsAmong(cs, above)|
    ensures |TextsOutsideAmong(cs, above)| == |TextsAmong(cs, above)| <==> NoTextInImgAmong(cs)
    ensures NoTextInImgAmong(cs) ==> TextsOutsideAmong(cs, above) == TextsAmong(cs, above)
    decreases cs
  {
    if cs != [] {
      OutsideOrIn(cs[0], above);
      OutsideOrInAmong(cs[1..], above);
    }
  }

  lemma {:induction false} NoTextsAmong(cs: seq<Tree>)
    requires NoTextAmong(cs)
    ensures NoTextInImgAmong(cs)
    decreases cs
  {
    if cs != [] {
      NoTextsAmong(cs[0].kids);
      NoTextsAmong(cs[1..]);
    }
  }

  /** The split keeps the anchor's texts exactly if none of them is at or under an image. */
  lemma SplitKeepsAllTextsIff(n: Tree, above: seq<Tag>)
    requires Anchor(n) && LeafTexts(n)
    ensures Texts(Top(true, n), above) + Texts(Top(false, n), above) == Texts(n, above) <==> NoTextInImg(n)
  {
    SplitKeepsTexts(n, above);
    OutsideOrIn(n, above);
  }

  // ------------------------------------------------------------------ every node

  /** Every node of a tree, in document order, with what it stands under. */
  function Listed(n: Tree, above: seq<Tag>): (r: seq<(Tag, seq<Tag>)>)
    decreases n
  {
    [(Tag(n.kind, n.data, n.href), above)] + ListedAmong(n.kids, Under(n, above))
  }

  function ListedAmong(cs: seq<Tree>, above: seq<Tag>): (r: seq<(Tag, seq<Tag>)>)
    decreases cs
  {
    if cs == [] then [] else Listed(cs[0], above) + ListedAmong(cs[1..], above)
  }

  /** A node of the anchor before it is split, whether it is an image or holds one. */
  datatype Row = Row(tag: Tag, above: seq<Tag>, img: bool, holds: bool)

  /** Document order again, without what hangs under images. */
  function Rows(n: Tree, above: seq<Tag>): (r: seq<Row>)
    decreases n
  {
    [Row(Tag(n.kind, n.data, n.href), above, Img(n), ImgAmong(n.kids))]
    + if Img(n) then [] else RowsAmong(n.kids, Under(n, above))
  }

  function RowsAmong(cs: seq<Tree>, above: seq<Tag>): (r: seq<Row>)
    decreases cs
  {
    if cs == [] then [] else Rows(cs[0], above) + RowsAmong(cs[1..], above)
  }

  predicate Seen(rows: seq<Row>) {
    rows != [] && (rows[0].img || Seen(rows[1..]))
  }

  /** One pass over the rows: images go, nodes holding an image stay on either side, the others stay
      in front until an image was seen and behind from then on. */
  function Scan(until: bool, rows: seq<Row>, seen: bool): (r: seq<(Tag, seq<Tag>)>) {
    if rows == [] then []
    else Picked(until, rows[0], seen) + Scan(until, rows[1..], seen || rows[0].img)
  }

  function Picked(until: bool, row: Row, seen: bool): (r: seq<(Tag, seq<Tag>)>) {
    if !row.img && (row.holds || seen != until) then [(row.tag, row.above)] else []
  }

  lemma {:induction false} NodesJoin(a: seq<Tree>, b: seq<Tree>, above: seq<Tag>)
    ensures ListedAmong(a + b, above) == ListedAmong(a, above) + ListedAmong(b, above)
  {
    if a == [] {
      assert a + b == b;
    } else {
      NodesJoin(a[1..], b, above);
      assert (a + b)[0] == a[0] && (a + b)[1..] == a[1..] + b;
      Assoc(Listed(a[0], above), ListedAmong(a[1..], above), ListedAmong(b, above));
    }
  }

  lemma {:induction false} SeenJoin(a: seq<Row>, b: seq<Row>)
    ensures Seen(a + b) <==> Seen(a) || Seen(b)
  {
    if a == [] {
      assert a + b == b;
    } else {
      SeenJoin(a[1..], b);
      assert (a + b)[0] == a[0] && (a + b)[1..] == a[1..] + b;
    }
  }

  lemma ScanFirst(until: bool, a: seq<Row>, b: seq<Row>, seen: bool)
    requires a != []
    ensures Scan(until, a + b, seen) == Picked(until, a[0], seen) + Scan(until, a[1..] + b, seen || a[0].img)
    ensures Seen(a) <==> a[0].img || Seen(a[1..])
  {
    assert (a + b)[0] == a[0] && (a + b)[1..] == a[1..] + b;
  }

  lemma {:induction false} ScanJoin(until: bool, a: seq<Row>, b: seq<Row>, seen: bool)
    ensures Scan(until, a + b, seen) == Scan(until, a, seen) + Scan(until, b, seen || Seen(a))
  {
    if a == [] {
      assert a + b == b;
    } else {
      var now := seen || a[0].img;
      ScanFirst(until, a, b, seen);
      ScanJoin(until, a[1..], b, now);
      var head, rest, tail := Picked(until, a[0], seen), Scan(until, a[1..], now), Scan(until, b, seen || Seen(a));
      assert Scan(until, a, seen) == head + rest;
      Assoc(head, rest, tail);
    }
  }

  lemma {:induction false} SeenIff(n: Tree, above: seq<Tag>)
    ensures Seen(Rows(n, above)) <==> ImgIn(n)
    decreases n
  {
    SeenAmongIff(n.kids, Under(n, above));
    assert Rows(n, above)[1..] == if Img(n) then [] else RowsAmong(n.kids, Under(n, above));
  }

  lemma {:induction false} SeenAmongIff(cs: seq<Tree>, above: seq<Tag>)
    ensures Seen(RowsAmong(cs, above)) <==> ImgAmong(cs)
    decreases cs
  {
    if cs != [] {
      SeenIff(cs[0], above);
      SeenAmongIff(cs[1..], above);
      SeenJoin(Rows(cs[0], above), RowsAmong(cs[1..], above));
    }
  }

  lemma {:induction false} DeleteScans(until: bool, c: Tree, found: bool, above: seq<Tag>)
    ensures ListedAmong(Delete(until, c, found), above) == Scan(until, Rows(c, above), found)
    decreases c
  {
    var row := Row(Tag(c.kind, c.data, c.href), above, Img(c), ImgAmong(c.kids));
    var under := if Img(c) then [] else RowsAmong(c.kids, Under(c, above));
    assert Rows(c, above)[0] == row && Rows(c, above)[1..] == under;
    if !Img(c) {
      AmongScans(until, c.kids, found, Under(c, above));
      if found == until && !ImgAmong(c.kids) {
        NoneLeft(until, c.kids, Under(c, above));
      } else {
        var kept := c.(kids := DeleteAmong(until, c.kids, found));
        assert Delete(until, c, found) == [kept] && [kept][1..] == [];
      }
    }
  }

  /** Nothing is left of nodes on the wrong side of all images. */
  lemma {:induction false} NoneLeft(until: bool, cs: seq<Tree>, above: seq<Tag>)
    requires !ImgAmong(cs)
    ensures Scan(until, RowsAmong(cs, above), until) == []
    decreases cs
  {
    if cs != [] {
      NoneLeft(until, cs[0].kids, Under(cs[0], above));
      NoneLeft(until, cs[1..], above);
      SeenIff(cs[0], above);
      ScanJoin(until, Rows(cs[0], above), RowsAmong(cs[1..], above), until);
      assert Rows(cs[0], above)[1..] == RowsAmong(cs[0].kids, Under(cs[0], above));
    }
  }

  /** What the deleter leaves of a list of nodes is what one pass over its document order picks. */
  lemma {:induction false} AmongScans(until: bool, cs: seq<Tree>, found: bool, above: seq<Tag>)
    ensures ListedAmong(DeleteAmong(until, cs, found), above) == Scan(until, RowsAmong(cs, above), found)
    decreases cs
  {
    if cs != [] {
      DeleteScans(until, cs[0], found, above);
      AmongScans(until, cs[1..], found || ImgIn(cs[0]), above);
      SeenIff(cs[0], above);
      ScanJoin(until, Rows(cs[0], above), RowsAmong(cs[1..], above), found);
      NodesJoin(Delete(until, cs[0], found), DeleteAmong(until, cs[1..], found || ImgIn(cs[0])), above);
    }
  }

  /** Each half of a split anchor, node by node: the anchor, then what one pass over its document
      order picks; a node that holds no image is in exactly one half, in its order and place. */
  lemma SplitScans(until: bool, n: Tree, above: seq<Tag>)
    requires Anchor(n)
    ensures Listed(Top(until, n), above)
         == [(Tag(n.kind, n.data, n.href), above)] + Scan(until, RowsAmong(n.kids, Under(n, above)), false)
  {
    AmongScans(until, n.kids, false, Under(n, above));
  }

  // ------------------------------------------------------------------ the images

  /** Neither tree of a split holds an image any more. */
  lemma {:induction false} NoImgLeft(until: bool, cs: seq<Tree>, found: bool)
    ensures !ImgAmong(DeleteAmong(until, cs, found))
    decreases cs
  {
    if cs != [] {
      NoImgLeft(until, cs[0].kids, found);
      NoImgLeft(until, cs[1..], found || ImgIn(cs[0]));
      var head := Delete(until, cs[0], found);
      var tail := DeleteAmong(until, cs[1..], found || ImgIn(cs[0]));
      if head == [] {
        assert head + tail == tail;
      } else {
        assert (head + tail)[0] == head[0] && (head + tail)[1..] == tail;
      }
    }
  }
}
