/**
 * The parsed HTML tree the crawlers walk. The library's node keeps
 * first-child and next-sibling links; here a node holds its attributes
 * and the ordered list of its children, which is the same information.
 */
module Html {

  /** One key/value attribute of an element. */
  datatype Attribute = Attribute(key: string, val: string)

  /** A node: its attributes in document order and its children in sibling order. */
  datatype Node = Node(attrs: seq<Attribute>, children: seq<Node>)

  /** The attribute keys the scrapers treat as carrying an address. */
  predicate IsLink(a: Attribute) {
    a.key == "src" || a.key == "href"
  }

  /** The values of the `src` and `href` attributes, in attribute order. */
  function Links(attrs: seq<Attribute>): (r: seq<string>)
    ensures |r| <= |attrs|
  {
    if attrs == [] then []
    else (if IsLink(attrs[0]) then [attrs[0].val] else []) + Links(attrs[1..])
  }

  /** A node without `src` or `href` attributes yields no address. */
  lemma {:induction false} LinksNone(attrs: seq<Attribute>)
    requires forall i :: 0 <= i < |attrs| ==> !IsLink(attrs[i])
    ensures Links(attrs) == []
  {
    if attrs != [] {
      assert !IsLink(attrs[0]);
      LinksNone(attrs[1..]);
    }
  }

  /** A node yields an address exactly when one of its attributes is `src` or `href`. */
  lemma {:induction false} LinksNonEmpty(attrs: seq<Attribute>)
    ensures Links(attrs) != [] <==> exists i :: 0 <= i < |attrs| && IsLink(attrs[i])
  {
    if attrs != [] {
      LinksNonEmpty(attrs[1..]);
      if !IsLink(attrs[0]) && exists i :: 0 <= i < |attrs| && IsLink(attrs[i]) {
        var i :| 0 <= i < |attrs| && IsLink(attrs[i]);
        assert attrs[1..][i - 1] == attrs[i];
      }
      if exists i :: 0 <= i < |attrs[1..]| && IsLink(attrs[1..][i]) {
        var i :| 0 <= i < |attrs[1..]| && IsLink(attrs[1..][i]);
        assert attrs[i + 1] == attrs[1..][i];
      }
    }
  }

  /** Links distributes over concatenation of attribute lists. */
  lemma {:induction false} LinksAppend(a: seq<Attribute>, b: seq<Attribute>)
    ensures Links(a + b) == Links(a) + Links(b)
  {
    if a == [] {
      assert a + b == b;
    } else {
      var head := if IsLink(a[0]) then [a[0].val] else [];
      assert (a + b)[0] == a[0] && (a + b)[1..] == a[1..] + b;
      assert Links(a + b) == head + Links(a[1..] + b);
      LinksAppend(a[1..], b);
      assert Links(a) == head + Links(a[1..]);
    }
  }

  /** Links of a prefix extended by one attribute. */
  lemma LinksSnoc(attrs: seq<Attribute>, i: nat)
    requires i < |attrs|
    ensures Links(attrs[..i + 1]) == Links(attrs[..i]) + (if IsLink(attrs[i]) then [attrs[i].val] else [])
  {
    assert attrs[..i + 1] == attrs[..i] + [attrs[i]];
    LinksAppend(attrs[..i], [attrs[i]]);
  }

  /** The nodes of a tree in pre-order: a node, then each child's subtree in sibling order. */
  function PreOrder(n: Node): (r: seq<Node>)
    ensures |r| >= 1 && r[0] == n
    decreases n, 1
  {
    [n] + PreOrderAll(n.children)
  }

  /** The pre-orders of a list of sibling subtrees, one after the other. */
  function PreOrderAll(cs: seq<Node>): (r: seq<Node>)
    ensures |r| >= |cs|
    decreases cs, 0
  {
    if cs == [] then [] else PreOrder(cs[0]) + PreOrderAll(cs[1..])
  }
}
