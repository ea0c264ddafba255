/** The node predicates of the swarm package and their combinators. */
module SwarmFilters {
  import opened Html
  import opened Scraping

  /** `f1.And(f2)`: holds exactly when both filters hold. */
  function And(f1: NodeFilter, f2: NodeFilter): (f: NodeFilter)
    ensures forall n :: f(n) <==> f1(n) && f2(n)
  {
    (n: Node) => f1(n) && f2(n)
  }

  /** `f1.Or(f2)`: holds exactly when either filter holds. */
  function Or(f1: NodeFilter, f2: NodeFilter): (f: NodeFilter)
    ensures forall n :: f(n) <==> f1(n) || f2(n)
  {
    (n: Node) => f1(n) || f2(n)
  }

  /** The filter that rejects every node. */
  function None(): (f: NodeFilter)
    ensures forall n :: !f(n)
  {
    (n: Node) => false
  }

  /** The filter that accepts every node. */
  function All(): (f: NodeFilter)
    ensures forall n :: f(n)
  {
    (n: Node) => true
  }

  /** The early-return search of HasAttr: is some attribute's key `attr`? */
  function HasKey(attrs: seq<Attribute>, attr: string): (b: bool)
    ensures b <==> exists i :: 0 <= i < |attrs| && attrs[i].key == attr
  {
    if attrs == [] then false
    else if attrs[0].key == attr then true
    else HasKey(attrs[1..], attr)
  }

  /** `HasAttr(attr)`: the node carries an attribute with key `attr`. */
  function HasAttr(attr: string): (f: NodeFilter)
    ensures forall n :: f(n) <==> exists i :: 0 <= i < |n.attrs| && n.attrs[i].key == attr
  {
    (n: Node) => HasKey(n.attrs, attr)
  }

  /**
   * `HasAttrs(included...)`: starting from None, or-in HasAttr of each
   * included key in turn. It holds exactly when some attribute key of the
   * node is among the included keys.
   */
  function HasAttrs(included: seq<string>): (f: NodeFilter)
    ensures forall n :: f(n) <==>
      exists i, j :: 0 <= i < |n.attrs| && 0 <= j < |included| && n.attrs[i].key == included[j]
  {
    if included == [] then None()
    else Or(HasAttrs(included[..|included| - 1]), HasAttr(included[|included| - 1]))
  }

  /** `IsLeafNode`: the node has no first child. */
  function IsLeafNode(n: Node): (b: bool)
    ensures b <==> n.children == []
  {
    |n.children| == 0
  }

  /**
   * The combinators obey the laws of Boolean algebra pointwise: Or and And
   * commute and associate, None and All are their units and zeros, and each
   * distributes over the other. A filter built from them can be rearranged freely.
   */
  lemma FilterLaws(f: NodeFilter, g: NodeFilter, h: NodeFilter, n: Node)
    ensures Or(f, g)(n) == Or(g, f)(n) && And(f, g)(n) == And(g, f)(n)
    ensures Or(Or(f, g), h)(n) == Or(f, Or(g, h))(n) && And(And(f, g), h)(n) == And(f, And(g, h))(n)
    ensures Or(None(), f)(n) == f(n) && And(All(), f)(n) == f(n)
    ensures !And(None(), f)(n) && Or(All(), f)(n)
    ensures And(f, Or(g, h))(n) == Or(And(f, g), And(f, h))(n)
    ensures Or(f, And(g, h))(n) == And(Or(f, g), Or(f, h))(n)
  {
  }

  /** Only which keys are given to HasAttrs matters, not their order or repetition. */
  lemma HasAttrsKeysOnly(a: seq<string>, b: seq<string>, n: Node)
    requires forall k :: k in a <==> k in b
    ensures HasAttrs(a)(n) == HasAttrs(b)(n)
  {
    if HasAttrs(a)(n) {
      var i, j :| 0 <= i < |n.attrs| && 0 <= j < |a| && n.attrs[i].key == a[j];
      assert a[j] in b;
      var j' :| 0 <= j' < |b| && b[j'] == a[j];
    }
    if HasAttrs(b)(n) {
      var i, j :| 0 <= i < |n.attrs| && 0 <= j < |b| && n.attrs[i].key == b[j];
      assert b[j] in a;
      var j' :| 0 <= j' < |a| && a[j'] == b[j];
    }
  }

  /** The filter guarding the spawned crawler's scrapers holds exactly when the node has a link to scrape. */
  lemma LinkFilter(n: Node)
    ensures HasAttrs(["src", "href"])(n) <==> Links(n.attrs) != []
  {
    var keys := ["src", "href"];
    LinksNonEmpty(n.attrs);
    if Links(n.attrs) != [] {
      var i :| 0 <= i < |n.attrs| && IsLink(n.attrs[i]);
      if n.attrs[i].key == "src" {
        assert n.attrs[i].key == keys[0];
      } else {
        assert n.attrs[i].key == keys[1];
      }
    }
    if HasAttrs(keys)(n) {
      var i, j :| 0 <= i < |n.attrs| && 0 <= j < |keys| && n.attrs[i].key == keys[j];
      assert IsLink(n.attrs[i]);
    }
  }

  /** A leaf is a node whose subtree is the node alone: a walk visits nothing below it. */
  lemma LeafPreOrder(n: Node)
    ensures IsLeafNode(n) <==> PreOrder(n) == [n]
  {
    if n.children != [] {
      assert |PreOrder(n)| == 1 + |PreOrderAll(n.children)| >= 2;
    }
  }

  /** The guard of the dump scraper: a node with a link and nothing below it. */
  lemma LeafLinkFilter(n: Node)
    ensures And(HasAttrs(["src", "href"]), IsLeafNode)(n) <==> Links(n.attrs) != [] && PreOrder(n) == [n]
  {
    LinkFilter(n);
    LeafPreOrder(n);
  }
}
