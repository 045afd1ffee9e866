/** The walk over a whole document that breaks images out of anchors
    (net/http/domclean2/05_breakout_imgs_from_a_trees.go, breakoutImagesFromAnchorTrees). */
module BreakoutWalk {

  import opened Wrappers
  import opened Basics
  import opened Dom
  import opened Breakout

  const WAS_IMG := "[was img] "

  /** The text put in the place of an anchor's only image. */
  function Label(beautify: string -> string, href: string): (r: string)
    ensures r != "img"
    ensures |beautify(href)| >= 6 ==> r == beautify(href)
    ensures |beautify(href)| < 6 ==> |r| == |WAS_IMG| + |beautify(href)| && WAS_IMG <= r
                                     && r[|WAS_IMG|..] == beautify(href)
  {
    var contnt := beautify(href);
    if |contnt| < 6 then WAS_IMG + contnt else contnt
  }

  /** What takes the place of an anchor whose children have been dealt with. */
  function Split(n: Tree, beautify: string -> string): (r: seq<Tree>) {
    match SearchImg(n, 0)
    case None => [n]
    case Some(hit) =>
      var (img, lvl) := hit;
      if lvl == 1 && |n.kids| == 1 then
        [n.(kids := [Node(TextNode, Label(beautify, n.href), "", [])]), img]
      else
        [Top(true, n), img.(kids := DeleteAmong(true, img.kids, true)), Top(false, n)]
  }

  /** What takes the place of n among its siblings. */
  function Walk(n: Tree, beautify: string -> string): (r: seq<Tree>)
    decreases n
  {
    var m := n.(kids := WalkAmong(n.kids, beautify));
    if Anchor(m) then Split(m, beautify) else [m]
  }

  function WalkAmong(cs: seq<Tree>, beautify: string -> string): (r: seq<Tree>)
    decreases cs
  {
    if cs == [] then [] else Walk(cs[0], beautify) + WalkAmong(cs[1..], beautify)
  }

  // ------------------------------------------------------------------ after the walk

  /** No anchor of the tree holds an image element. */
  predicate Settled(n: Tree)
    decreases n
  {
    (Anchor(n) ==> SearchAmong(n.kids, 1).None?) && SettledAmong(n.kids)
  }

  predicate SettledAmong(cs: seq<Tree>)
    decreases cs
  {
    cs == [] || (Settled(cs[0]) && SettledAmong(cs[1..]))
  }

  lemma {:induction false} NothingToFind(cs: seq<Tree>, lvl: nat)
    requires !ImgAmong(cs)
    ensures SearchAmong(cs, lvl).None?
    decreases cs
  {
    if cs != [] {
      NothingToFind(cs[0].kids, lvl + 1);
      NothingToFind(cs[1..], lvl);
    }
  }

  lemma {:induction false} NoImgSettled(cs: seq<Tree>)
    requires !ImgAmong(cs)
    ensures SettledAmong(cs)
    decreases cs
  {
    if cs != [] {
      NothingToFind(cs[0].kids, 1);
      NoImgSettled(cs[0].kids);
      NoImgSettled(cs[1..]);
    }
  }

  /** A hit lies at the level of the list searched only if it is in that list. */
  lemma {:induction false} HitLevel(cs: seq<Tree>, lvl: nat)
    requires SearchAmong(cs, lvl).Some?
    ensures ImgElement(SearchAmong(cs, lvl).value.0)
    ensures SearchAmong(cs, lvl).value.1 >= lvl
    ensures SearchAmong(cs, lvl).value.1 == lvl ==> SearchAmong(cs, lvl).value.0 in cs
    decreases cs
  {
    if ImgElement(cs[0]) {
    } else if SearchAmong(cs[0].kids, lvl + 1).Some? {
      HitLevel(cs[0].kids, lvl + 1);
    } else {
      HitLevel(cs[1..], lvl);
    }
  }

  lemma {:induction false} SettledJoin(a: seq<Tree>, b: seq<Tree>)
    ensures SettledAmong(a + b) <==> SettledAmong(a) && SettledAmong(b)
  {
    if a == [] {
      assert a + b == b;
    } else {
      SettledJoin(a[1..], b);
      assert (a + b)[0] == a[0] && (a + b)[1..] == a[1..] + b;
    }
  }

  lemma SettledOne(n: Tree)
    ensures SettledAmong([n]) <==> Settled(n)
  {
    assert [n][1..] == [];
  }

  lemma SplitSettles(n: Tree, beautify: string -> string)
    requires Anchor(n) && SettledAmong(n.kids)
    ensures SettledAmong(Split(n, beautify))
  {
    if SearchImg(n, 0).None? {
      SettledOne(n);
    } else {
      HitLevel(n.kids, 1);
      var (img, lvl) := SearchImg(n, 0).value;
      if lvl == 1 && |n.kids| == 1 {
        var text := Node(TextNode, Label(beautify, n.href), "", []);
        assert img == n.kids[0];
        assert !ImgIn(text) && [text][1..] == [];
        NoImgSettled([text]);
        NothingToFind([text], 1);
        SettledOne(n.(kids := [text]));
        SettledOne(img);
        SettledJoin([n.(kids := [text])], [img]);
      } else {
        NoImgLeft(true, n.kids, Img(n));
        NoImgLeft(false, n.kids, Img(n));
        NoImgLeft(true, img.kids, true);
        var bare := img.(kids := DeleteAmong(true, img.kids, true));
        NoImgSettled(Top(true, n).kids);
        NoImgSettled(Top(false, n).kids);
        NoImgSettled(bare.kids);
        NothingToFind(Top(true, n).kids, 1);
        NothingToFind(Top(false, n).kids, 1);
        SettledOne(Top(true, n));
        SettledOne(bare);
        SettledOne(Top(false, n));
        SettledJoin([Top(true, n)], [bare]);
        SettledJoin([Top(true, n), bare], [Top(false, n)]);
      }
    }
  }

  /** After the walk no anchor of the document holds an image element any more. */
  lemma {:induction false} WalkSettles(n: Tree, beautify: string -> string)
    ensures SettledAmong(Walk(n, beautify))
    decreases n
  {
    WalkAmongSettles(n.kids, beautify);
    var m := n.(kids := WalkAmong(n.kids, beautify));
    if Anchor(m) {
      SplitSettles(m, beautify);
    } else {
      SettledOne(m);
    }
  }

  lemma {:induction false} WalkAmongSettles(cs: seq<Tree>, beautify: string -> string)
    ensures SettledAmong(WalkAmong(cs, beautify))
    decreases cs
  {
    if cs != [] {
      WalkSettles(cs[0], beautify);
      WalkAmongSettles(cs[1..], beautify);
      SettledJoin(Walk(cs[0], beautify), WalkAmong(cs[1..], beautify));
    }
  }

  /** A settled list is left as it is. */
  lemma {:induction false} SettledStays(cs: seq<Tree>, beautify: string -> string)
    requires SettledAmong(cs)
    ensures WalkAmong(cs, beautify) == cs
    decreases cs
  {
    if cs != [] {
      SettledStays(cs[0].kids, beautify);
      SettledStays(cs[1..], beautify);
      assert cs[0].(kids := cs[0].kids) == cs[0];
      assert Walk(cs[0], beautify) == [cs[0]];
      assert [cs[0]] + cs[1..] == cs;
    }
  }

  /** Visiting what the walk has just inserted, as the loop over the siblings does, and walking a
      document a second time, both change nothing. */
  lemma WalkTwice(n: Tree, beautify: string -> string)
    ensures WalkAmong(Walk(n, beautify), beautify) == Walk(n, beautify)
  {
    WalkSettles(n, beautify);
    SettledStays(Walk(n, beautify), beautify);
  }

  // ------------------------------------------------------------------ texts and images

  /** What the parser guarantees: texts and images have no children. */
  predicate Parsed(n: Tree)
    decreases n
  {
    (n.kind == TextNode || Img(n) ==> n.kids == []) && ParsedAmong(n.kids)
  }

  predicate ParsedAmong(cs: seq<Tree>)
    decreases cs
  {
    cs == [] || (Parsed(cs[0]) && ParsedAmong(cs[1..]))
  }

  lemma {:induction false} ParsedJoin(a: seq<Tree>, b: seq<Tree>)
    ensures ParsedAmong(a + b) <==> ParsedAmong(a) && ParsedAmong(b)
  {
    if a == [] {
      assert a + b == b;
    } else {
      ParsedJoin(a[1..], b);
      assert (a + b)[0] == a[0] && (a + b)[1..] == a[1..] + b;
    }
  }

  lemma {:induction false} ParsedTexts(cs: seq<Tree>)
    requires ParsedAmong(cs)
    ensures LeafTextsAmong(cs)
    decreases cs
  {
    if cs != [] {
      ParsedTexts(cs[0].kids);
      ParsedTexts(cs[1..]);
    }
  }

  lemma {:induction false} ParsedDelete(until: bool, cs: seq<Tree>, found: bool)
    requires ParsedAmong(cs)
    ensures ParsedAmong(DeleteAmong(until, cs, found))
    decreases cs
  {
    if cs != [] {
      ParsedDelete(until, cs[0].kids, found);
      ParsedDelete(until, cs[1..], found || ImgIn(cs[0]));
      var head := Delete(until, cs[0], found);
      if head != [] {
        assert head[1..] == [] && Parsed(head[0]);
      }
      ParsedJoin(head, DeleteAmong(until, cs[1..], found || ImgIn(cs[0])));
    }
  }

  lemma {:induction false} ParsedHit(cs: seq<Tree>, lvl: nat)
    requires ParsedAmong(cs) && SearchAmong(cs, lvl).Some?
    ensures Parsed(SearchAmong(cs, lvl).value.0)
    decreases cs
  {
    if ImgElement(cs[0]) {
    } else if SearchAmong(cs[0].kids, lvl + 1).Some? {
      ParsedHit(cs[0].kids, lvl + 1);
    } else {
      ParsedHit(cs[1..], lvl);
    }
  }

  /** Whether an image element is at or below a node. */
  predicate HasImage(n: Tree)
    decreases n
  {
    ImgElement(n) || HasImageAmong(n.kids)
  }

  predicate HasImageAmong(cs: seq<Tree>)
    decreases cs
  {
    cs != [] && (HasImage(cs[0]) || HasImageAmong(cs[1..]))
  }

  lemma {:induction false} FoundIff(cs: seq<Tree>, lvl: nat)
    ensures SearchAmong(cs, lvl).Some? <==> HasImageAmong(cs)
    decreases cs
  {
    if cs != [] {
      FoundIff(cs[0].kids, lvl + 1);
      FoundIff(cs[1..], lvl);
    }
  }

  lemma {:induction false} HasImageJoin(a: seq<Tree>, b: seq<Tree>)
    ensures HasImageAmong(a + b) <==> HasImageAmong(a) || HasImageAmong(b)
  {
    if a == [] {
      assert a + b == b;
    } else {
      HasImageJoin(a[1..], b);
      assert (a + b)[0] == a[0] && (a + b)[1..] == a[1..] + b;
    }
  }

  /** An anchor whose only child is an image gets a text in that image's place. */
  predicate Relabelled(n: Tree) {
    Anchor(n) && |n.kids| == 1 && ImgElement(n.kids[0])
  }

  /** The text an anchor gets in the place of its only image. */
  function Labelled(n: Tree, above: seq<Tag>, beautify: string -> string): (r: Line) {
    Line(Label(beautify, n.href), Under(n, above))
  }

  /** The texts of a document after the walk with what they stand under, read off the document before
      it. An anchor holding an image cuts: of the texts below it those reading just "img" go; `cut`
      says so from above. */
  function TextsAfter(n: Tree, cut: bool, above: seq<Tag>, beautify: string -> string): (r: seq<Line>)
    decreases n
  {
    if n.kind == TextNode then (if cut && Img(n) then [] else [Line(n.data, above)])
    else if Relabelled(n) then [Labelled(n, above, beautify)]
    else TextsAfterAmong(n.kids, cut || (Anchor(n) && HasImageAmong(n.kids)), Under(n, above), beautify)
  }

  function TextsAfterAmong(cs: seq<Tree>, cut: bool, above: seq<Tag>, beautify: string -> string): (r: seq<Line>)
    decreases cs
  {
    if cs == [] then []
    else TextsAfter(cs[0], cut, above, beautify) + TextsAfterAmong(cs[1..], cut, above, beautify)
  }

  /** What the walk makes of a part: its texts, those outside images, and whether it holds an image. */
  predicate Becomes(before: seq<Tree>, after: seq<Tree>, above: seq<Tag>, beautify: string -> string) {
    && ParsedAmong(after)
    && TextsAmong(after, above) == TextsAfterAmong(before, false, above, beautify)
    && TextsOutsideAmong(after, above) == TextsAfterAmong(before, true, above, beautify)
    && (HasImageAmong(after) <==> HasImageAmong(before))
  }

  lemma One(n: Tree, above: seq<Tag>)
    ensures TextsAmong([n], above) == Texts(n, above) && TextsOutsideAmong([n], above) == TextsOutside(n, above)
    ensures (ParsedAmong([n]) <==> Parsed(n)) && (HasImageAmong([n]) <==> HasImage(n))
  {
    assert [n][1..] == [];
  }

  lemma OneAfter(n: Tree, cut: bool, above: seq<Tag>, beautify: string -> string)
    ensures TextsAfterAmong([n], cut, above, beautify) == TextsAfter(n, cut, above, beautify)
  {
    assert [n][1..] == [];
  }

  lemma {:induction false} OutsideJoin(a: seq<Tree>, b: seq<Tree>, above: seq<Tag>)
    ensures TextsOutsideAmong(a + b, above) == TextsOutsideAmong(a, above) + TextsOutsideAmong(b, above)
  {
    if a == [] {
      assert a + b == b;
    } else {
      OutsideJoin(a[1..], b, above);
      assert (a + b)[0] == a[0] && (a + b)[1..] == a[1..] + b;
      Assoc(TextsOutside(a[0], above), TextsOutsideAmong(a[1..], above), TextsOutsideAmong(b, above));
    }
  }

  /** A list of parsed nodes with an image and exactly the given texts, all of them outside images. */
  predicate Holds(r: seq<Tree>, texts: seq<Line>, above: seq<Tag>) {
    ParsedAmong(r) && HasImageAmong(r) && TextsAmong(r, above) == texts && TextsOutsideAmong(r, above) == texts
  }

  /** Splitting around an image: all texts outside images are kept in their places, and no others. */
  lemma SplitTextsAround(n: Tree, img: Tree, above: seq<Tag>)
    requires Anchor(n) && Parsed(n) && Parsed(img) && ImgElement(img)
    ensures img.(kids := DeleteAmong(true, img.kids, true)) == img
    ensures Holds([Top(true, n), img, Top(false, n)], TextsOutside(n, above), above)
  {
    var u, a := Top(true, n), Top(false, n);
    ParsedTexts(n.kids);
    SplitKeepsTexts(n, above);
    ParsedDelete(true, n.kids, Img(n));
    ParsedDelete(false, n.kids, Img(n));
    TopHasNoImg(n);
    PartWithoutImg(u.kids, Under(n, above));
    PartWithoutImg(a.kids, Under(n, above));
    assert TextsOutside(u, above) == Texts(u, above) && TextsOutside(a, above) == Texts(a, above);
    One(u, above);
    One(img, above);
    One(a, above);
    TextsJoin([u], [img], above);
    TextsJoin([u, img], [a], above);
    OutsideJoin([u], [img], above);
    OutsideJoin([u, img], [a], above);
    ParsedJoin([u], [img]);
    ParsedJoin([u, img], [a]);
    HasImageJoin([u], [img]);
    HasImageJoin([u, img], [a]);
  }

  lemma SplitTextsOnly(n: Tree, above: seq<Tag>, beautify: string -> string)
    requires Relabelled(n) && Parsed(n)
    ensures Holds(Split(n, beautify), [Labelled(n, above, beautify)], above)
  {
    var img := n.kids[0];
    var text := Node(TextNode, Label(beautify, n.href), "", []);
    var anchor := n.(kids := [text]);
    assert SearchAmong(n.kids, 1) == Some((img, 1));
    assert Split(n, beautify) == [anchor, img];
    One(img, above);
    One(text, Under(n, above));
    One(anchor, above);
    assert anchor.kids == [text];
    TextsJoin([anchor], [img], above);
    OutsideJoin([anchor], [img], above);
    ParsedJoin([anchor], [img]);
    HasImageJoin([anchor], [img]);
  }

  /** Dealing with one anchor that holds an image: its texts outside images are kept under the same
      nodes, or one text is put under the anchor where an only child was an image. */
  lemma SplitTexts(n: Tree, above: seq<Tag>, beautify: string -> string)
    requires Anchor(n) && Parsed(n) && HasImageAmong(n.kids)
    ensures Holds(Split(n, beautify),
                  if Relabelled(n) then [Labelled(n, above, beautify)] else TextsOutside(n, above), above)
  {
    FoundIff(n.kids, 1);
    HitLevel(n.kids, 1);
    ParsedHit(n.kids, 1);
    var (img, lvl) := SearchImg(n, 0).value;
    if Relabelled(n) {
      SplitTextsOnly(n, above, beautify);
    } else {
      assert !(lvl == 1 && |n.kids| == 1);
      SplitTextsAround(n, img, above);
    }
  }

  /** The pieces keep the link: an anchor, the image the search finds, and an anchor again, both
      anchors what the one was before; an anchor whose only child is an image stays one before it. */
  lemma SplitKeepsLink(n: Tree, beautify: string -> string)
    requires Anchor(n) && SearchImg(n, 0).Some?
    ensures var r, img := Split(n, beautify), SearchImg(n, 0).value.0;
      if Relabelled(n) then
        |r| == 2 && Under(r[0], []) == Under(n, []) && r[1] == img
      else
        |r| == 3 && Under(r[0], []) == Under(n, []) && Under(r[1], []) == Under(img, [])
        && Under(r[2], []) == Under(n, []) && (!ImgAmong(img.kids) ==> r[1].kids == [])
  {
    HitLevel(n.kids, 1);
    var img := SearchImg(n, 0).value.0;
    if !Relabelled(n) && !ImgAmong(img.kids) {
      GoneBehind(img.kids);
    }
  }

  /** Nothing stays in front behind the image where no further image is. */
  lemma {:induction false} GoneBehind(cs: seq<Tree>)
    requires !ImgAmong(cs)
    ensures DeleteAmong(true, cs, true) == []
    decreases cs
  {
    if cs != [] {
      GoneBehind(cs[1..]);
    }
  }

  lemma {:induction false} WalkLength(cs: seq<Tree>, beautify: string -> string)
    ensures |WalkAmong(cs, beautify)| >= |cs|
  {
    if cs != [] {
      WalkLength(cs[1..], beautify);
    }
  }

  /** Whether an anchor is relabelled can be told before its children are dealt with. */
  lemma RelabelledBefore(n: Tree, beautify: string -> string)
    ensures Relabelled(n.(kids := WalkAmong(n.kids, beautify))) <==> Relabelled(n)
  {
    if n.kids != [] {
      var c, rest := n.kids[0], n.kids[1..];
      WalkLength(rest, beautify);
      assert WalkAmong(n.kids, beautify) == Walk(c, beautify) + WalkAmong(rest, beautify);
      if |n.kids| == 1 { assert rest == []; }
    }
  }

  /** After the walk a document has exactly the texts TextsAfter reads off it, each under the nodes it
      was under: no text loses its link or comes under another. */
  lemma {:induction false} WalkTexts(n: Tree, above: seq<Tag>, beautify: string -> string)
    requires Parsed(n)
    ensures Becomes([n], Walk(n, beautify), above, beautify)
    decreases n
  {
    WalkAmongTexts(n.kids, Under(n, above), beautify);
    var m := n.(kids := WalkAmong(n.kids, beautify));
    One(n, above);
    One(m, above);
    OneAfter(n, false, above, beautify);
    OneAfter(n, true, above, beautify);
    RelabelledBefore(n, beautify);
    if Anchor(n) && HasImageAmong(n.kids) {
      SplitTexts(m, above, beautify);
    } else {
      FoundIff(m.kids, 1);
    }
  }

  lemma {:induction false} WalkAmongTexts(cs: seq<Tree>, above: seq<Tag>, beautify: string -> string)
    requires ParsedAmong(cs)
    ensures Becomes(cs, WalkAmong(cs, beautify), above, beautify)
    decreases cs
  {
    if cs != [] {
      WalkTexts(cs[0], above, beautify);
      WalkAmongTexts(cs[1..], above, beautify);
      OneAfter(cs[0], false, above, beautify);
      OneAfter(cs[0], true, above, beautify);
      One(cs[0], above);
      var head, tail := Walk(cs[0], beautify), WalkAmong(cs[1..], beautify);
      TextsJoin(head, tail, above);
      OutsideJoin(head, tail, above);
      ParsedJoin(head, tail);
      HasImageJoin(head, tail);
    }
  }

  // ------------------------------------------------------------------ when all texts stay

  /** No anchor has an image as its only child, and no text reading just "img" is below an anchor
      holding an image. */
  predicate Spared(n: Tree, cut: bool)
    decreases n
  {
    && (n.kind == TextNode ==> !(cut && Img(n)))
    && !Relabelled(n)
    && SparedAmong(n.kids, cut || (Anchor(n) && HasImageAmong(n.kids)))
  }

  predicate SparedAmong(cs: seq<Tree>, cut: bool)
    decreases cs
  {
    cs == [] || (Spared(cs[0], cut) && SparedAmong(cs[1..], cut))
  }

  /** How often a list of texts says just "img". */
  function Imgish(s: seq<Line>): nat {
    if s == [] then 0 else Imgish(s[1..]) + if s[0].text == "img" then 1 else 0
  }

  lemma {:induction false} ImgishJoin(a: seq<Line>, b: seq<Line>)
    ensures Imgish(a + b) == Imgish(a) + Imgish(b)
  {
    if a == [] {
      assert a + b == b;
    } else {
      ImgishJoin(a[1..], b);
      assert (a + b)[0] == a[0] && (a + b)[1..] == a[1..] + b;
    }
  }

  /** Texts reading "img" can only go and others can only be added, so that no change makes up for another. */
  lemma {:induction false} SparedIff(n: Tree, cut: bool, above: seq<Tag>, beautify: string -> string)
    requires Parsed(n)
    ensures var after, before := TextsAfter(n, cut, above, beautify), Texts(n, above);
      && Imgish(after) <= Imgish(before)
      && (Imgish(after) == Imgish(before) ==> |after| >= |before|)
      && (Spared(n, cut) <==> Imgish(after) == Imgish(before) && |after| == |before|)
      && (Spared(n, cut) ==> after == before)
    decreases n
  {
    if n.kind == TextNode {
    } else if Relabelled(n) {
      One(n.kids[0], Under(n, above));
      assert n.kids == [n.kids[0]];
      assert Texts(n.kids[0], Under(n, above)) == [];
    } else {
      SparedAmongIff(n.kids, cut || (Anchor(n) && HasImageAmong(n.kids)), Under(n, above), beautify);
      assert Texts(n, above) == TextsAmong(n.kids, Under(n, above));
    }
  }

  lemma {:induction false} SparedAmongIff(cs: seq<Tree>, cut: bool, above: seq<Tag>, beautify: string -> string)
    requires ParsedAmong(cs)
    ensures var after, before := TextsAfterAmong(cs, cut, above, beautify), TextsAmong(cs, above);
      && Imgish(after) <= Imgish(before)
      && (Imgish(after) == Imgish(before) ==> |after| >= |before|)
      && (SparedAmong(cs, cut) <==> Imgish(after) == Imgish(before) && |after| == |before|)
      && (SparedAmong(cs, cut) ==> after == before)
    decreases cs
  {
    if cs != [] {
      SparedIff(cs[0], cut, above, beautify);
      SparedAmongIff(cs[1..], cut, above, beautify);
      var a, b := TextsAfter(cs[0], cut, above, beautify), TextsAfterAmong(cs[1..], cut, above, beautify);
      ImgishJoin(Texts(cs[0], above), TextsAmong(cs[1..], above));
      ImgishJoin(a, b);
    }
  }

  /** The walk leaves the texts of a document as they are if and only if no anchor of it has an image
      as its only child and none that holds an image holds a text reading just "img". */
  lemma WalkKeepsTextsIff(n: Tree, above: seq<Tag>, beautify: string -> string)
    requires Parsed(n)
    ensures TextsAmong(Walk(n, beautify), above) == Texts(n, above) <==> Spared(n, false)
  {
    WalkTexts(n, above, beautify);
    OneAfter(n, false, above, beautify);
    SparedIff(n, false, above, beautify);
  }

  /** How many nodes are taken for images. */
  function Imgs(n: Tree): (r: nat)
    ensures r == 0 <==> !ImgIn(n)
    decreases n
  {
    ImgsAmong(n.kids) + if Img(n) then 1 else 0
  }

  function ImgsAmong(cs: seq<Tree>): (r: nat)
    ensures r == 0 <==> !ImgAmong(cs)
    decreases cs
  {
    if cs == [] then 0 else Imgs(cs[0]) + ImgsAmong(cs[1..])
  }

  /** Of all the images in an anchor only the first one survives its splitting. */
  lemma OneImgSurvives(n: Tree, beautify: string -> string)
    requires Anchor(n) && SearchImg(n, 0).Some? && !Relabelled(n)
    ensures ImgsAmong(Split(n, beautify)) == 1
    ensures ImgsAmong(Split(n, beautify)) == Imgs(n) <==> Imgs(n) == 1
    ensures |Split(n, beautify)| == 3 && !ImgIn(Split(n, beautify)[0]) && !ImgIn(Split(n, beautify)[2])
    ensures ImgElement(Split(n, beautify)[1])
  {
    HitLevel(n.kids, 1);
    var (img, lvl) := SearchImg(n, 0).value;
    var bare := img.(kids := DeleteAmong(true, img.kids, true));
    TopHasNoImg(n);
    NoImgLeft(true, img.kids, true);
    CountThree(Top(true, n), bare, Top(false, n));
  }

  // ------------------------------------------------------------------ when all images stay

  /** The number of images a document has after the walk, read off the document before it. */
  function ImgsAfter(n: Tree): nat
    decreases n
  {
    if Anchor(n) && HasImageAmong(n.kids) then 1
    else ImgsAfterAmong(n.kids) + if Img(n) then 1 else 0
  }

  function ImgsAfterAmong(cs: seq<Tree>): nat
    decreases cs
  {
    if cs == [] then 0 else ImgsAfter(cs[0]) + ImgsAfterAmong(cs[1..])
  }

  lemma {:induction false} ImgsJoin(a: seq<Tree>, b: seq<Tree>)
    ensures ImgsAmong(a + b) == ImgsAmong(a) + ImgsAmong(b)
  {
    if a == [] {
      assert a + b == b;
    } else {
      ImgsJoin(a[1..], b);
      assert (a + b)[0] == a[0] && (a + b)[1..] == a[1..] + b;
    }
  }

  lemma ImgsOne(n: Tree)
    ensures ImgsAmong([n]) == Imgs(n)
  {
    assert [n][1..] == [];
  }

  /** An anchor holding an image leaves exactly one. */
  lemma ImgsOfSplit(n: Tree, beautify: string -> string)
    requires Anchor(n) && Parsed(n) && HasImageAmong(n.kids)
    ensures ImgsAmong(Split(n, beautify)) == 1
  {
    FoundIff(n.kids, 1);
    if Relabelled(n) {
      var img := n.kids[0];
      var text := Node(TextNode, Label(beautify, n.href), "", []);
      assert Split(n, beautify) == [n.(kids := [text]), img] by {
        assert SearchAmong(n.kids, 1) == Some((img, 1));
      }
      assert Parsed(img);
      ImgsOne(img);
      ImgsOne(text);
      ImgsOne(n.(kids := [text]));
      ImgsJoin([n.(kids := [text])], [img]);
    } else {
      OneImgSurvives(n, beautify);
    }
  }

  /** The walk leaves one image to every anchor that holds some and is not inside another such anchor,
      and all images outside anchors. */
  lemma {:induction false} WalkImgs(n: Tree, beautify: string -> string)
    requires Parsed(n)
    ensures ImgsAmong(Walk(n, beautify)) == ImgsAfter(n)
    decreases n
  {
    var m := n.(kids := WalkAmong(n.kids, beautify));
    WalkAmongImgs(n.kids, beautify);
    WalkAmongTexts(n.kids, [], beautify);
    ImgsOne(m);
    if Anchor(n) && HasImageAmong(n.kids) {
      ImgsOfSplit(m, beautify);
    } else {
      FoundIff(m.kids, 1);
    }
  }

  lemma {:induction false} WalkAmongImgs(cs: seq<Tree>, beautify: string -> string)
    requires ParsedAmong(cs)
    ensures ImgsAmong(WalkAmong(cs, beautify)) == ImgsAfterAmong(cs)
    decreases cs
  {
    if cs != [] {
      WalkImgs(cs[0], beautify);
      WalkAmongImgs(cs[1..], beautify);
      ImgsJoin(Walk(cs[0], beautify), WalkAmong(cs[1..], beautify));
    }
  }

  /** No anchor that holds an image holds a second one. */
  predicate OneEach(n: Tree)
    decreases n
  {
    (Anchor(n) && HasImageAmong(n.kids) ==> Imgs(n) == 1) && OneEachAmong(n.kids)
  }

  predicate OneEachAmong(cs: seq<Tree>)
    decreases cs
  {
    cs == [] || (OneEach(cs[0]) && OneEachAmong(cs[1..]))
  }

  lemma {:induction false} OneAtMost(cs: seq<Tree>)
    requires ImgsAmong(cs) <= 1
    ensures OneEachAmong(cs)
    decreases cs
  {
    if cs != [] {
      OneAtMost(cs[0].kids);
      OneAtMost(cs[1..]);
      if HasImageAmong(cs[0].kids) { ImageCounts(cs[0].kids); }
    }
  }

  lemma {:induction false} ImageCounts(cs: seq<Tree>)
    requires HasImageAmong(cs)
    ensures ImgsAmong(cs) >= 1
    decreases cs
  {
    if HasImage(cs[0]) {
      if !ImgElement(cs[0]) { ImageCounts(cs[0].kids); }
    } else {
      ImageCounts(cs[1..]);
    }
  }

  lemma {:induction false} OneEachIff(n: Tree)
    ensures ImgsAfter(n) <= Imgs(n) && (ImgsAfter(n) == Imgs(n) <==> OneEach(n))
    decreases n
  {
    OneEachAmongIff(n.kids);
    if Anchor(n) && HasImageAmong(n.kids) {
      ImageCounts(n.kids);
      if Imgs(n) == 1 { OneAtMost(n.kids); }
    }
  }

  lemma {:induction false} OneEachAmongIff(cs: seq<Tree>)
    ensures ImgsAfterAmong(cs) <= ImgsAmong(cs) && (ImgsAfterAmong(cs) == ImgsAmong(cs) <==> OneEachAmong(cs))
    decreases cs
  {
    if cs != [] {
      OneEachIff(cs[0]);
      OneEachAmongIff(cs[1..]);
    }
  }

  /** The walk never adds an image to a document, and loses none if and only if no anchor holds two. */
  lemma WalkKeepsImgsIff(n: Tree, beautify: string -> string)
    requires Parsed(n)
    ensures ImgsAmong(Walk(n, beautify)) <= Imgs(n)
    ensures ImgsAmong(Walk(n, beautify)) == Imgs(n) <==> OneEach(n)
  {
    WalkImgs(n, beautify);
    OneEachIff(n);
  }

  lemma TopHasNoImg(n: Tree)
    requires Anchor(n)
    ensures !ImgIn(Top(true, n)) && !ImgIn(Top(false, n))
    ensures !ImgAmong(Top(true, n).kids) && !ImgAmong(Top(false, n).kids)
  {
    NoImgLeft(true, n.kids, Img(n));
    NoImgLeft(false, n.kids, Img(n));
  }

  lemma CountThree(u: Tree, img: Tree, a: Tree)
    ensures ImgsAmong([u, img, a]) == Imgs(u) + Imgs(img) + Imgs(a)
  {
    assert [u, img, a][1..] == [img, a] && [img, a][1..] == [a] && [a][1..] == [];
    assert ImgsAmong([a]) == Imgs(a);
    assert ImgsAmong([img, a]) == Imgs(img) + Imgs(a);
  }
}
