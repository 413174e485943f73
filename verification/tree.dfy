/**
  The two tree passes of `process_page`, over an already parsed element tree.

  - The anchor pass visits every anchor below the root (`.//a`). An anchor
    with non-blank text gets a new first child `<em>` holding that text and
    loses its own text, and its `href` is made absolute when the URL validator
    rejects it. An anchor with blank or no text is removed from its parent,
    together with its tail text (lxml's `remove`).
  - The emphasis pass visits every element (`root.iter()`) and replaces each
    non-blank text and tail by `reinforce_text` of it.

  The URL validator is a library call; it is the parameter `valid`.
*/
module Tree {
  import opened Wrappers
  import opened Chars
  import opened Whitespace
  import opened Urls
  import Emphasis

  /** An element: tag, attributes, text before the first child, children, and text after the element. */
  datatype Node = Node(tag: string, attrs: map<string, string>, text: Option<string>, children: seq<Node>, tail: Option<string>)

  predicate Blank(s: string) {
    forall i :: 0 <= i < |s| ==> IsSpace(s[i])
  }

  /** `x and x.strip()`: present and not all whitespace. */
  predicate HasText(o: Option<string>) {
    o.Some? && !Blank(o.value)
  }

  const Href := "href"

  predicate IsAnchor(n: Node) {
    n.tag == "a"
  }

  /** `etree.Element('em')` with the given text. */
  function Em(text: Option<string>): Node {
    Node("em", map[], text, [], None)
  }

  /**
    Every anchor below the root whose text is not blank has an `href`; otherwise
    the helper's `a_tag.attrib['href']` raises `KeyError`. Anchors inside
    anchors that get removed are visited too, since the list of anchors is
    taken before the loop.
  */
  predicate HrefsPresent(cs: seq<Node>) {
    forall i :: 0 <= i < |cs| ==>
      && (IsAnchor(cs[i]) && HasText(cs[i].text) ==> Href in cs[i].attrs)
      && HrefsPresent(cs[i].children)
  }

  // ---------------------------------------------------------------------
  // The anchor pass

  /**
    The attributes of a text-bearing anchor after the URL fix: a valid `href`
    stays, an invalid one is joined onto the site root of the target URL, and
    every other attribute is kept.
  */
  function FixHref(attrs: map<string, string>, target: string, valid: string -> bool): (r: map<string, string>)
    requires Href in attrs
    ensures r.Keys == attrs.Keys
    ensures forall k :: k in attrs && k != Href ==> r[k] == attrs[k]
    ensures valid(attrs[Href]) ==> r[Href] == attrs[Href]
    ensures !valid(attrs[Href]) ==> r[Href] == SchemefulDomain(target) + TrimStart(attrs[Href])
  {
    var h := attrs[Href];
    if valid(h) then attrs
    else
      attrs[Href := AbsolutizeUrl(SchemefulDomain(target), h).value]
  }

  /** The anchor pass over a list of siblings and everything below them. */
  function Anchors(cs: seq<Node>, target: string, valid: string -> bool): seq<Node>
    requires HrefsPresent(cs)
    decreases cs
  {
    if cs == [] then []
    else
      var c := cs[0];
      var kids := Anchors(c.children, target, valid);
      var head :=
        if !IsAnchor(c) then [c.(children := kids)]
        else if HasText(c.text) then [Node(c.tag, FixHref(c.attrs, target, valid), None, [Em(c.text)] + kids, c.tail)]
        else [];
      head + Anchors(cs[1..], target, valid)
  }

  /** The anchor pass of `process_page`: the root itself is never one of the anchors visited. */
  function AnchorPass(root: Node, target: string, valid: string -> bool): Node
    requires HrefsPresent(root.children)
  {
    root.(children := Anchors(root.children, target, valid))
  }

  // ---------------------------------------------------------------------
  // What the anchor pass does, stated node by node

  /** The anchors the pass removes: blank or missing text. */
  predicate Removed(n: Node) {
    IsAnchor(n) && !HasText(n.text)
  }

  /** No removable anchor anywhere in the list or below it. */
  predicate NoRemoved(cs: seq<Node>) {
    forall i :: 0 <= i < |cs| ==> !Removed(cs[i]) && NoRemoved(cs[i].children)
  }

  /** The tree with the removable anchors (and their tails and contents) cut out, and nothing else changed. */
  function Prune(cs: seq<Node>): seq<Node>
    decreases cs
  {
    if cs == [] then []
    else (if Removed(cs[0]) then [] else [cs[0].(children := Prune(cs[0].children))]) + Prune(cs[1..])
  }

  /**
    `q` is what the pass makes of the kept node `p`: same tag and tail; an
    anchor has its text moved into a new first child `<em>` and its `href`
    fixed; any other node keeps its attributes and text; and the children
    correspond in order.
  */
  predicate Settles(p: Node, q: Node, target: string, valid: string -> bool)
    decreases p
  {
    && q.tag == p.tag
    && q.tail == p.tail
    && if IsAnchor(p) then
         && HasText(p.text)
         && Href in p.attrs
         && q.attrs == FixHref(p.attrs, target, valid)
         && q.text == None
         && q.children != []
         && q.children[0] == Em(p.text)
         && SettlesAll(p.children, q.children[1..], target, valid)
       else
         && q.attrs == p.attrs
         && q.text == p.text
         && SettlesAll(p.children, q.children, target, valid)
  }

  predicate SettlesAll(ps: seq<Node>, qs: seq<Node>, target: string, valid: string -> bool)
    decreases ps
  {
    |ps| == |qs| && forall i :: 0 <= i < |ps| ==> Settles(ps[i], qs[i], target, valid)
  }

  lemma {:induction false} SettlesCons(p: Node, q: Node, ps: seq<Node>, qs: seq<Node>, target: string, valid: string -> bool)
    requires Settles(p, q, target, valid) && SettlesAll(ps, qs, target, valid)
    ensures SettlesAll([p] + ps, [q] + qs, target, valid)
  {
    forall i | 0 <= i < |[p] + ps|
      ensures Settles(([p] + ps)[i], ([q] + qs)[i], target, valid)
    {
      if i > 0 {
        assert ([p] + ps)[i] == ps[i - 1] && ([q] + qs)[i] == qs[i - 1];
      }
    }
  }

  /**
    The anchor pass is pruning followed by a node-by-node rewrite: the nodes it
    keeps are exactly those `Prune` keeps, in the same order, and each is
    rewritten as `Settles` describes.
  */
  lemma {:induction false} AnchorsSettle(cs: seq<Node>, target: string, valid: string -> bool)
    requires HrefsPresent(cs)
    ensures SettlesAll(Prune(cs), Anchors(cs, target, valid), target, valid)
    decreases cs, 1
  {
    if cs != [] {
      AnchorsSettleHead(cs, target, valid);
    }
  }

  lemma {:induction false} AnchorsSettleHead(cs: seq<Node>, target: string, valid: string -> bool)
    requires cs != [] && HrefsPresent(cs)
    ensures SettlesAll(Prune(cs), Anchors(cs, target, valid), target, valid)
    decreases cs, 0
  {
    var c := cs[0];
    var kids := Anchors(c.children, target, valid);
    AnchorsSettle(c.children, target, valid);
    AnchorsSettle(cs[1..], target, valid);
    if !Removed(c) {
      var p := c.(children := Prune(c.children));
      var q := if IsAnchor(c) then Node(c.tag, FixHref(c.attrs, target, valid), None, [Em(c.text)] + kids, c.tail)
               else c.(children := kids);
      assert Prune(cs) == [p] + Prune(cs[1..]);
      assert Anchors(cs, target, valid) == [q] + Anchors(cs[1..], target, valid);
      if IsAnchor(c) {
        assert q.children[1..] == kids;
      }
      assert Settles(p, q, target, valid);
      SettlesCons(p, q, Prune(cs[1..]), Anchors(cs[1..], target, valid), target, valid);
    }
  }

  /** Pruning leaves no removable anchor. */
  lemma {:induction false} PruneRemoves(cs: seq<Node>)
    ensures NoRemoved(Prune(cs))
    decreases cs
  {
    if cs != [] {
      PruneRemoves(cs[0].children);
      PruneRemoves(cs[1..]);
      var rest := Prune(cs[1..]);
      if !Removed(cs[0]) {
        var p := cs[0].(children := Prune(cs[0].children));
        assert Prune(cs) == [p] + rest;
        forall i | 0 <= i < |[p] + rest|
          ensures !Removed(([p] + rest)[i]) && NoRemoved(([p] + rest)[i].children)
        {
          if i > 0 {
            assert ([p] + rest)[i] == rest[i - 1];
          }
        }
      }
    }
  }

  /** Pruning changes nothing where there is nothing to remove; so pruning twice is pruning once. */
  lemma {:induction false} PruneKeepsClean(cs: seq<Node>)
    requires NoRemoved(cs)
    ensures Prune(cs) == cs
    decreases cs
  {
    if cs != [] {
      PruneKeepsClean(cs[0].children);
      assert NoRemoved(cs[1..]) by {
        forall i | 0 <= i < |cs[1..]|
          ensures !Removed(cs[1..][i]) && NoRemoved(cs[1..][i].children)
        {
          assert cs[1..][i] == cs[i + 1];
        }
      }
      PruneKeepsClean(cs[1..]);
      assert cs[0].(children := cs[0].children) == cs[0];
      assert [cs[0]] + cs[1..] == cs;
    }
  }

  lemma {:induction false} PruneIdempotent(cs: seq<Node>)
    ensures Prune(Prune(cs)) == Prune(cs)
  {
    PruneRemoves(cs);
    PruneKeepsClean(Prune(cs));
  }

  // ---------------------------------------------------------------------
  // The text of a tree

  function Str(o: Option<string>): string {
    if o.Some? then o.value else ""
  }

  /** All text inside the element, in document order (`itertext`). */
  function Inner(n: Node): string
    decreases n, 0
  {
    Str(n.text) + Texts(n.children)
  }

  /** The element's text followed by its tail. */
  function Outer(n: Node): string
    decreases n, 1
  {
    Inner(n) + Str(n.tail)
  }

  function Texts(cs: seq<Node>): string
    decreases cs, 2
  {
    if cs == [] then [] else Outer(cs[0]) + Texts(cs[1..])
  }

  /** A node and its rewrite carry the same text: moving an anchor's text into `<em>` keeps it in place. */
  lemma {:induction false} SettledText(p: Node, q: Node, target: string, valid: string -> bool)
    requires Settles(p, q, target, valid)
    ensures Outer(q) == Outer(p)
    decreases p, 0
  {
    if IsAnchor(p) {
      var rest := q.children[1..];
      SettledTexts(p.children, rest, target, valid);
      EmFirst(p.text, q.children);
      assert Inner(q) == Str(p.text) + Texts(p.children);
    } else {
      SettledTexts(p.children, q.children, target, valid);
    }
  }

  /** A child list that starts with `<em>` holding `t` reads as `t` followed by the rest. */
  lemma {:induction false} EmFirst(t: Option<string>, cs: seq<Node>)
    requires cs != [] && cs[0] == Em(t)
    ensures Texts(cs) == Str(t) + Texts(cs[1..])
  {
    assert Texts(Em(t).children) == [];
    assert Outer(Em(t)) == Str(t);
  }

  lemma {:induction false} SettledTexts(ps: seq<Node>, qs: seq<Node>, target: string, valid: string -> bool)
    requires SettlesAll(ps, qs, target, valid)
    ensures Texts(qs) == Texts(ps)
    decreases ps, 1
  {
    if ps != [] {
      SettledText(ps[0], qs[0], target, valid);
      assert SettlesAll(ps[1..], qs[1..], target, valid) by {
        forall i | 0 <= i < |ps[1..]|
          ensures Settles(ps[1..][i], qs[1..][i], target, valid)
        {
          assert ps[1..][i] == ps[i + 1] && qs[1..][i] == qs[i + 1];
        }
      }
      SettledTexts(ps[1..], qs[1..], target, valid);
    }
  }

  /**
    The anchor pass loses no text except what was inside and after the
    removed anchors: the page reads the same as the pruned page.
  */
  lemma {:induction false} AnchorPassKeepsText(root: Node, target: string, valid: string -> bool)
    requires HrefsPresent(root.children)
    ensures Inner(AnchorPass(root, target, valid)) == Inner(root.(children := Prune(root.children)))
  {
    AnchorsSettle(root.children, target, valid);
    SettledTexts(Prune(root.children), Anchors(root.children, target, valid), target, valid);
  }

  // ---------------------------------------------------------------------
  // The emphasis pass

  /** A text or tail after the emphasis pass. */
  function Touch(o: Option<string>): Option<string> {
    if HasText(o) then Some(Emphasis.Reinforce(o.value)) else o
  }

  function EmphasisNode(n: Node): Node
    decreases n
  {
    Node(n.tag, n.attrs, Touch(n.text), EmphasisAll(n.children), Touch(n.tail))
  }

  function EmphasisAll(cs: seq<Node>): seq<Node>
    decreases cs
  {
    if cs == [] then [] else [EmphasisNode(cs[0])] + EmphasisAll(cs[1..])
  }

  /** The tree without its text: tags, attributes and the nesting of children. */
  datatype Shape = Shape(tag: string, attrs: map<string, string>, kids: seq<Shape>)

  function ShapeOf(n: Node): Shape
    decreases n
  {
    Shape(n.tag, n.attrs, ShapesOf(n.children))
  }

  function ShapesOf(cs: seq<Node>): seq<Shape>
    decreases cs
  {
    if cs == [] then [] else [ShapeOf(cs[0])] + ShapesOf(cs[1..])
  }

  /** Every text and tail of the tree, in document order: text, the children's slots, tail. */
  function Slots(n: Node): seq<Option<string>>
    decreases n
  {
    [n.text] + SlotsAll(n.children) + [n.tail]
  }

  function SlotsAll(cs: seq<Node>): seq<Option<string>>
    decreases cs
  {
    if cs == [] then [] else Slots(cs[0]) + SlotsAll(cs[1..])
  }

  function TouchAll(xs: seq<Option<string>>): (ys: seq<Option<string>>)
    ensures |ys| == |xs|
    ensures forall i :: 0 <= i < |xs| ==> ys[i] == Touch(xs[i])
  {
    seq(|xs|, i requires 0 <= i < |xs| => Touch(xs[i]))
  }

  lemma {:induction false} TouchAllAppend(a: seq<Option<string>>, b: seq<Option<string>>)
    ensures TouchAll(a + b) == TouchAll(a) + TouchAll(b)
  {
  }

  /** The emphasis pass changes no tag, attribute or child: the shape of the tree is kept. */
  lemma {:induction false} EmphasisKeepsShape(n: Node)
    ensures ShapeOf(EmphasisNode(n)) == ShapeOf(n)
    decreases n, 1
  {
    EmphasisKeepsShapes(n.children);
  }

  lemma {:induction false} EmphasisKeepsShapes(cs: seq<Node>)
    ensures ShapesOf(EmphasisAll(cs)) == ShapesOf(cs)
    decreases cs, 0
  {
    if cs != [] {
      EmphasisKeepsShape(cs[0]);
      EmphasisKeepsShapes(cs[1..]);
      assert EmphasisAll(cs)[1..] == EmphasisAll(cs[1..]);
    }
  }

  /**
    The emphasis pass rewrites every text and tail on its own: the slots of
    the result are those of the input with `Touch` applied to each.
  */
  lemma {:induction false} EmphasisTouchesSlots(n: Node)
    ensures Slots(EmphasisNode(n)) == TouchAll(Slots(n))
    decreases n, 1
  {
    EmphasisTouchesAll(n.children);
    TouchAllAppend([n.text] + SlotsAll(n.children), [n.tail]);
    TouchAllAppend([n.text], SlotsAll(n.children));
  }

  lemma {:induction false} EmphasisTouchesAll(cs: seq<Node>)
    ensures SlotsAll(EmphasisAll(cs)) == TouchAll(SlotsAll(cs))
    decreases cs, 0
  {
    if cs != [] {
      EmphasisTouchesSlots(cs[0]);
      EmphasisTouchesAll(cs[1..]);
      assert EmphasisAll(cs)[1..] == EmphasisAll(cs[1..]);
      TouchAllAppend(Slots(cs[0]), SlotsAll(cs[1..]));
    }
  }

  /** How many slots a tree of a given shape has. */
  function SlotCount(s: Shape): nat
    decreases s
  {
    2 + SlotCounts(s.kids)
  }

  function SlotCounts(ss: seq<Shape>): nat
    decreases ss
  {
    if ss == [] then 0 else SlotCount(ss[0]) + SlotCounts(ss[1..])
  }

  lemma {:induction false} SlotsCounted(n: Node)
    ensures |Slots(n)| == SlotCount(ShapeOf(n))
    decreases n, 1
  {
    SlotsCountedAll(n.children);
  }

  lemma {:induction false} SlotsCountedAll(cs: seq<Node>)
    ensures |SlotsAll(cs)| == SlotCounts(ShapesOf(cs))
    decreases cs, 0
  {
    if cs != [] {
      SlotsCounted(cs[0]);
      SlotsCountedAll(cs[1..]);
      assert ShapesOf(cs)[1..] == ShapesOf(cs[1..]);
    }
  }

  /**
    A tree is determined by its shape and its slots, so the two lemmas above
    say all there is to say about the emphasis pass.
  */
  lemma {:induction false} ShapeAndSlotsDetermine(a: Node, b: Node)
    requires ShapeOf(a) == ShapeOf(b) && Slots(a) == Slots(b)
    ensures a == b
    decreases a, 1
  {
    var sa, sb := SlotsAll(a.children), SlotsAll(b.children);
    assert Slots(a)[0] == a.text && Slots(b)[0] == b.text;
    assert Slots(a)[|Slots(a)| - 1] == a.tail && Slots(b)[|Slots(b)| - 1] == b.tail;
    assert Slots(a)[1..|Slots(a)| - 1] == sa;
    assert Slots(b)[1..|Slots(b)| - 1] == sb;
    AllDetermined(a.children, b.children);
  }

  lemma {:induction false} AllDetermined(as_: seq<Node>, bs: seq<Node>)
    requires ShapesOf(as_) == ShapesOf(bs) && SlotsAll(as_) == SlotsAll(bs)
    ensures as_ == bs
    decreases as_, 0
  {
    if as_ != [] && bs != [] {
      assert ShapesOf(as_)[0] == ShapeOf(as_[0]) && ShapesOf(bs)[0] == ShapeOf(bs[0]);
      assert ShapesOf(as_)[1..] == ShapesOf(as_[1..]) && ShapesOf(bs)[1..] == ShapesOf(bs[1..]);
      SlotsCounted(as_[0]);
      SlotsCounted(bs[0]);
      var k := |Slots(as_[0])|;
      assert SlotsAll(as_)[..k] == Slots(as_[0]) && SlotsAll(bs)[..k] == Slots(bs[0]);
      assert SlotsAll(as_)[k..] == SlotsAll(as_[1..]) && SlotsAll(bs)[k..] == SlotsAll(bs[1..]);
      ShapeAndSlotsDetermine(as_[0], bs[0]);
      AllDetermined(as_[1..], bs[1..]);
      assert as_ == [as_[0]] + as_[1..] && bs == [bs[0]] + bs[1..];
    }
  }

  /**
    A text or tail that the emphasis pass rewrites ends with exactly one space
    after a tidy body; blank and missing ones are left as they are.
  */
  lemma {:induction false} TouchedIsTidy(o: Option<string>)
    ensures HasText(o) ==> Touch(o).Some? && SpaceTerminated(Touch(o).value)
    ensures !HasText(o) ==> Touch(o) == o
  {
    if HasText(o) {
      Emphasis.ReinforceShape(o.value);
    }
  }

  /** `process_page` from the parsed tree to the rewritten tree. */
  function ProcessPage(root: Node, target: string, valid: string -> bool): Node
    requires HrefsPresent(root.children)
  {
    EmphasisNode(AnchorPass(root, target, valid))
  }

  /**
    `process_page` is the anchor pass followed by the emphasis pass: the tree
    the anchor pass leaves keeps its shape, and each of its texts and tails is
    rewritten on its own.
  */
  lemma {:induction false} ProcessPageSpec(root: Node, target: string, valid: string -> bool)
    requires HrefsPresent(root.children)
    ensures ShapeOf(ProcessPage(root, target, valid)) == ShapeOf(AnchorPass(root, target, valid))
    ensures Slots(ProcessPage(root, target, valid)) == TouchAll(Slots(AnchorPass(root, target, valid)))
  {
    EmphasisKeepsShape(AnchorPass(root, target, valid));
    EmphasisTouchesSlots(AnchorPass(root, target, valid));
  }

  /** A page whose only child is an empty link loses the link and the text after it. */
  lemma {:induction false} EmptyLinkRemoved(page: Node, a: Node, target: string, valid: string -> bool)
    requires page.children == [a] && Removed(a) && HrefsPresent(a.children)
    ensures HrefsPresent(page.children)
    ensures ProcessPage(page, target, valid).children == []
    ensures ProcessPage(page, target, valid).text == Touch(page.text)
  {
    assert page.children[1..] == [];
    assert Anchors([], target, valid) == [];
    assert Anchors(page.children, target, valid) == [];
    assert EmphasisAll([]) == [];
  }

  /**
    The anchor pass on a page whose only child is a link with text: the link
    keeps its tag and tail, its text moves into a new `<em>` child, and its
    `href` is fixed.
  */
  lemma {:induction false} LinkAnchored(page: Node, a: Node, target: string, valid: string -> bool)
    requires page.children == [a] && IsAnchor(a) && HasText(a.text) && Href in a.attrs && a.children == []
    ensures HrefsPresent(page.children)
    ensures AnchorPass(page, target, valid).children == [Node("a", FixHref(a.attrs, target, valid), None, [Em(a.text)], a.tail)]
  {
    assert page.children[1..] == [];
    assert Anchors([], target, valid) == [];
    assert [Em(a.text)] + [] == [Em(a.text)];
  }

  /**
    The emphasis pass on such a link: the text inside the `<em>` and the link's
    tail are emphasised, and nothing else changes.
  */
  lemma {:induction false} LinkEmphasised(tag: string, attrs: map<string, string>, t: Option<string>, tail: Option<string>)
    ensures EmphasisNode(Node(tag, attrs, None, [Em(t)], tail)) == Node(tag, attrs, None, [Em(Touch(t))], Touch(tail))
  {
    assert EmphasisAll([]) == [];
    assert Touch(None) == None;
    assert EmphasisNode(Em(t)) == Em(Touch(t));
    assert EmphasisAll([Em(t)]) == [EmphasisNode(Em(t))];
  }

  /**
    A relative `href` the validator rejects becomes the target's
    `scheme://host/`, with the scheme lower-cased, followed by the path
    without its leading slash.
  */
  lemma {:induction false} RelativeLinkFixed(attrs: map<string, string>, s: string, h: string, rest: string, valid: string -> bool)
    requires Href in attrs && !valid(attrs[Href])
    requires Scheme(s) && Host(h)
    requires rest == [] || rest[0] in "/?#"
    ensures FixHref(attrs, s + ("://" + (h + rest)), valid)[Href] == LowerAscii(s) + ("://" + (h + "/")) + TrimStart(attrs[Href])
  {
    SiteRootOf(s, h, rest);
  }

  // ---------------------------------------------------------------------
  // Anchors without `href`

  /**
    The anchor pass as written, with its error path: `None` stands for the
    `KeyError` that `a_tag.attrib['href']` raises when a text-bearing anchor has
    no `href`. The anchors inside a removed anchor are visited too, since the
    list of anchors is taken before the loop.
  */
  function AnchorsOrRaise(cs: seq<Node>, target: string, valid: string -> bool): Option<seq<Node>>
    decreases cs
  {
    if cs == [] then Some([])
    else
      var c := cs[0];
      var kids := AnchorsOrRaise(c.children, target, valid);
      var rest := AnchorsOrRaise(cs[1..], target, valid);
      if kids.None? || rest.None? then None
      else if !IsAnchor(c) then Some([c.(children := kids.value)] + rest.value)
      else if !HasText(c.text) then rest
      else if Href !in c.attrs then None
      else Some([Node(c.tag, FixHref(c.attrs, target, valid), None, [Em(c.text)] + kids.value, c.tail)] + rest.value)
  }

  /** `HrefsPresent` of a non-empty list, taken apart into its head and the rest. */
  lemma {:induction false} HrefsPresentCons(cs: seq<Node>)
    requires cs != []
    ensures HrefsPresent(cs)
        <==> && (IsAnchor(cs[0]) && HasText(cs[0].text) ==> Href in cs[0].attrs)
             && HrefsPresent(cs[0].children)
             && HrefsPresent(cs[1..])
  {
    if HrefsPresent(cs) {
      forall i | 0 <= i < |cs[1..]|
        ensures IsAnchor(cs[1..][i]) && HasText(cs[1..][i].text) ==> Href in cs[1..][i].attrs
        ensures HrefsPresent(cs[1..][i].children)
      {
        assert cs[1..][i] == cs[i + 1];
      }
    }
    if && (IsAnchor(cs[0]) && HasText(cs[0].text) ==> Href in cs[0].attrs)
       && HrefsPresent(cs[0].children)
       && HrefsPresent(cs[1..])
    {
      forall i | 0 <= i < |cs|
        ensures IsAnchor(cs[i]) && HasText(cs[i].text) ==> Href in cs[i].attrs
        ensures HrefsPresent(cs[i].children)
      {
        if i > 0 {
          assert cs[i] == cs[1..][i - 1];
        }
      }
    }
  }

  /** The pass raises exactly when some visited text-bearing anchor has no `href`; otherwise it is `Anchors`. */
  lemma {:induction false} RaisesExactly(cs: seq<Node>, target: string, valid: string -> bool)
    ensures AnchorsOrRaise(cs, target, valid).Some? <==> HrefsPresent(cs)
    ensures HrefsPresent(cs) ==> AnchorsOrRaise(cs, target, valid) == Some(Anchors(cs, target, valid))
    decreases cs
  {
    if cs != [] {
      HrefsPresentCons(cs);
      RaisesExactly(cs[0].children, target, valid);
      RaisesExactly(cs[1..], target, valid);
      if HrefsPresent(cs) && IsAnchor(cs[0]) && !HasText(cs[0].text) {
        var rest := Anchors(cs[1..], target, valid);
        assert Anchors(cs, target, valid) == [] + rest;
        assert [] + rest == rest;
      }
    }
  }

  /** A named anchor such as `<a name="top">Top</a>`: link text, no `href`. */
  function NamedAnchor(): Node {
    Node("a", map["name" := "top"], Some("Top"), [], None)
  }

  /** The pass as written raises on a page holding a named anchor. */
  lemma {:induction false} NamedAnchorRaises(target: string, valid: string -> bool)
    ensures !HrefsPresent([NamedAnchor()])
    ensures AnchorsOrRaise([NamedAnchor()], target, valid) == None
  {
    var a := NamedAnchor();
    assert !Blank(a.text.value) by {
      assert !IsSpace(a.text.value[0]);
    }
    assert Href !in a.attrs;
    RaisesExactly([a], target, valid);
  }

  /**
    The anchor pass without the error: a text-bearing anchor that has no `href`
    gets its `<em>` and keeps its attributes, since there is nothing to fix.
  */
  function AnchorsTotal(cs: seq<Node>, target: string, valid: string -> bool): seq<Node>
    decreases cs
  {
    if cs == [] then []
    else
      var c := cs[0];
      var kids := AnchorsTotal(c.children, target, valid);
      var head :=
        if !IsAnchor(c) then [c.(children := kids)]
        else if !HasText(c.text) then []
        else if Href in c.attrs then [Node(c.tag, FixHref(c.attrs, target, valid), None, [Em(c.text)] + kids, c.tail)]
        else [Node(c.tag, c.attrs, None, [Em(c.text)] + kids, c.tail)];
      head + AnchorsTotal(cs[1..], target, valid)
  }

  /** Wherever the pass as written does not raise, the total pass gives the same tree. */
  lemma {:induction false} TotalAgrees(cs: seq<Node>, target: string, valid: string -> bool)
    requires HrefsPresent(cs)
    ensures AnchorsTotal(cs, target, valid) == Anchors(cs, target, valid)
    decreases cs
  {
    if cs != [] {
      HrefsPresentCons(cs);
      TotalAgrees(cs[0].children, target, valid);
      TotalAgrees(cs[1..], target, valid);
    }
  }

  /** The total pass turns the named anchor into `<a name="top"><em>Top</em></a>`. */
  lemma {:induction false} NamedAnchorKept(target: string, valid: string -> bool)
    ensures AnchorsTotal([NamedAnchor()], target, valid) == [Node("a", map["name" := "top"], None, [Em(Some("Top"))], None)]
  {
    var a := NamedAnchor();
    assert !Blank(a.text.value) by {
      assert !IsSpace(a.text.value[0]);
    }
    assert Href !in a.attrs;
    assert [a][1..] == [];
    assert AnchorsTotal([], target, valid) == [];
    assert [Em(a.text)] + [] == [Em(a.text)];
  }
}
