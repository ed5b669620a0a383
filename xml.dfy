/** An abstract DOM: the part of org.w3c.dom the persistence engine reads and builds. */
module Xml {

  /** A DOM node: a text node, or an element with attributes and ordered child nodes. */
  datatype Node =
    | Text(value: string)
    | Element(tag: string, attrs: map<string, string>, children: seq<Node>)

  /** One result of a descendant search: the element found and the node it is a child of. */
  datatype Hit = Hit(parent: Node, elem: Node)

  /** Number of nodes in a DOM subtree. */
  function Size(n: Node): nat
  {
    match n
    case Text(_) => 1
    case Element(_, _, cs) => 1 + SizeSeq(cs)
  }

  function SizeSeq(cs: seq<Node>): nat
  {
    if cs == [] then 0 else Size(cs[0]) + SizeSeq(cs[1..])
  }

  lemma {:induction false} SizeSeqFirst(cs: seq<Node>)
    requires cs != []
    ensures Size(cs[0]) <= SizeSeq(cs) && SizeSeq(cs[1..]) < SizeSeq(cs)
  {
  }

  /**
   * Element.getElementsByTagName: every descendant element of `n` (never `n`
   * itself) whose tag is `tag`, in document order.
   */
  function ElementsByTagName(n: Node, tag: string): (r: seq<Hit>)
    ensures forall h | h in r :: h.elem.Element? && h.elem.tag == tag
    ensures n.Element? ==> forall h | h in r :: h.parent == n || Size(h.parent) < Size(n)
    ensures forall h | h in r && h.parent == n :: n.Element? && h.elem in n.children
  {
    match n
    case Text(_) => []
    case Element(_, _, cs) => HitsIn(n, cs, tag)
  }

  /** The matches below the child sequence `cs` of `parent`, in document order. */
  function HitsIn(parent: Node, cs: seq<Node>, tag: string): (r: seq<Hit>)
    ensures forall h | h in r :: h.elem.Element? && h.elem.tag == tag
    ensures forall h | h in r :: h.parent == parent || Size(h.parent) <= SizeSeq(cs)
    ensures SizeSeq(cs) < Size(parent) ==> forall h | h in r && h.parent == parent :: h.elem in cs
    decreases SizeSeq(cs)
  {
    if cs == [] then []
    else
      SizeSeqFirst(cs);
      var c := cs[0];
      var here := if c.Element? && c.tag == tag then [Hit(parent, c)] else [];
      var below := if c.Element? then HitsIn(c, c.children, tag) else [];
      var rest := HitsIn(parent, cs[1..], tag);
      assert forall h | h in below :: h.parent != parent ==> Size(h.parent) <= SizeSeq(cs);
      here + below + rest
  }

  /** The element children of `cs` whose tag is `tag`, in order. */
  function Tagged(cs: seq<Node>, tag: string): (r: seq<Node>)
    ensures forall c | c in r :: c in cs && c.Element? && c.tag == tag
    ensures forall c | c in cs && c.Element? && c.tag == tag :: c in r
  {
    if cs == [] then []
    else (if cs[0].Element? && cs[0].tag == tag then [cs[0]] else []) + Tagged(cs[1..], tag)
  }

  /** The elements of those hits whose parent is `parent` (the `isSameNode` filter). */
  function ChildHits(hits: seq<Hit>, parent: Node): (r: seq<Node>)
    ensures forall c | c in r :: exists h | h in hits :: h.parent == parent && h.elem == c
  {
    if hits == [] then []
    else (if hits[0].parent == parent then [hits[0].elem] else []) + ChildHits(hits[1..], parent)
  }

  lemma {:induction false} ChildHitsAppend(a: seq<Hit>, b: seq<Hit>, p: Node)
    ensures ChildHits(a + b, p) == ChildHits(a, p) + ChildHits(b, p)
  {
    if a == [] {
      assert a + b == b;
    } else {
      assert (a + b)[0] == a[0];
      assert (a + b)[1..] == a[1..] + b;
      ChildHitsAppend(a[1..], b, p);
    }
  }

  lemma ChildHitsSnoc(hs: seq<Hit>, i: nat, p: Node)
    requires i < |hs|
    ensures ChildHits(hs[..i + 1], p) == ChildHits(hs[..i], p) + (if hs[i].parent == p then [hs[i].elem] else [])
  {
    assert hs[..i + 1] == hs[..i] + [hs[i]];
    ChildHitsAppend(hs[..i], [hs[i]], p);
    assert [hs[i]][1..] == [];
  }

  lemma {:induction false} ChildHitsNone(hs: seq<Hit>, p: Node)
    requires forall h | h in hs :: h.parent != p
    ensures ChildHits(hs, p) == []
  {
    if hs != [] {
      ChildHitsNone(hs[1..], p);
    }
  }

  lemma BelowIsDeeper(e: Node, c: Node, tag: string)
    requires Size(c) < Size(e)
    ensures c.Element? ==> forall h | h in HitsIn(c, c.children, tag) :: h.parent != e
  {
    if c.Element? {
      assert SizeSeq(c.children) < Size(c);
    }
  }

  lemma {:induction false} ImmediateMatchesIn(e: Node, cs: seq<Node>, tag: string)
    requires SizeSeq(cs) < Size(e)
    ensures ChildHits(HitsIn(e, cs, tag), e) == Tagged(cs, tag)
  {
    if cs != [] {
      SizeSeqFirst(cs);
      var c := cs[0];
      var here := if c.Element? && c.tag == tag then [Hit(e, c)] else [];
      var below := if c.Element? then HitsIn(c, c.children, tag) else [];
      var rest := HitsIn(e, cs[1..], tag);
      assert HitsIn(e, cs, tag) == here + below + rest;
      BelowIsDeeper(e, c, tag);
      ChildHitsNone(below, e);
      ChildHitsAppend(here + below, rest, e);
      ChildHitsAppend(here, below, e);
      ImmediateMatchesIn(e, cs[1..], tag);
      assert ChildHits(here, e) == (if c.Element? && c.tag == tag then [c] else []);
    }
  }

  /**
   * The `isSameNode` filter recovers exactly the immediate children: keeping
   * the descendant matches whose parent is `e` gives the children of `e` with
   * that tag, in document order; grandchildren never get through.
   */
  lemma ImmediateMatches(e: Node, tag: string)
    requires e.Element?
    ensures ChildHits(ElementsByTagName(e, tag), e) == Tagged(e.children, tag)
  {
    ImmediateMatchesIn(e, e.children, tag);
  }

  /** Elements whose children are all text: no match can lie below them. */
  predicate Flat(cs: seq<Node>)
  {
    forall c | c in cs :: c.Element? && forall x | x in c.children :: x.Text?
  }

  lemma {:induction false} TextOnlyNoHits(p: Node, cs: seq<Node>, tag: string)
    requires forall x | x in cs :: x.Text?
    ensures HitsIn(p, cs, tag) == []
    decreases |cs|
  {
    if cs != [] {
      assert cs[0] in cs;
      assert forall x | x in cs[1..] :: x in cs;
      TextOnlyNoHits(p, cs[1..], tag);
    }
  }

  /**
   * Over a flat run of elements the descendant search finds exactly the
   * elements with the tag, in order; in particular its first match is the
   * first such element.
   */
  lemma {:induction false} FlatHits(p: Node, cs: seq<Node>, tag: string)
    requires Flat(cs)
    ensures HitsIn(p, cs, tag) == [] <==> Tagged(cs, tag) == []
    ensures Tagged(cs, tag) != [] ==> HitsIn(p, cs, tag)[0] == Hit(p, Tagged(cs, tag)[0])
    decreases |cs|
  {
    if cs != [] {
      var c := cs[0];
      assert c in cs;
      TextOnlyNoHits(c, c.children, tag);
      assert forall x | x in cs[1..] :: x in cs;
      FlatHits(p, cs[1..], tag);
    }
  }
}
