/**
 * What the two crawler packages share: node filters and node scrapers as
 * values, the (filter, scraper) pairs a crawler applies, and the recursive
 * walk over a parsed tree.
 *
 * A scraper's side effect is represented by the sequence of addresses it
 * emits (into a global list, a channel or a dispatcher); running several
 * scrapers one after the other concatenates their emissions.
 */
module Scraping {
  import opened Html

  /** A predicate deciding whether a scraper applies to a node. */
  type NodeFilter = Node -> bool

  /** A scraper, given by what it emits for a node. */
  type NodeScraper = Node -> seq<string>

  /** One configured scraper with the filter that guards it. */
  datatype FilteredScraper = FilteredScraper(filter: NodeFilter, scrape: NodeScraper)

  /** What one guarded scraper emits for a node. */
  function Guarded(s: FilteredScraper, n: Node): seq<string> {
    if s.filter(n) then s.scrape(n) else []
  }

  /**
   * What Crawler.Scrape emits for one node: each scraper in list order,
   * skipping those whose filter rejects the node.
   */
  function ScrapeTrace(ss: seq<FilteredScraper>, n: Node): seq<string> {
    if ss == [] then [] else Guarded(ss[0], n) + ScrapeTrace(ss[1..], n)
  }

  /** Adding a scraper at the end adds its emissions after all earlier ones. */
  lemma {:induction false} ScrapeTraceAppend(ss: seq<FilteredScraper>, s: FilteredScraper, n: Node)
    ensures ScrapeTrace(ss + [s], n) == ScrapeTrace(ss, n) + Guarded(s, n)
  {
    if ss == [] {
      assert ss + [s] == [s];
    } else {
      assert (ss + [s])[1..] == ss[1..] + [s];
      ScrapeTraceAppend(ss[1..], s, n);
    }
  }

  /** A scraper whose filter rejects the node contributes nothing. */
  lemma {:induction false} ScrapeTraceFiltered(ss: seq<FilteredScraper>, n: Node)
    requires forall i :: 0 <= i < |ss| ==> !ss[i].filter(n)
    ensures ScrapeTrace(ss, n) == []
  {
    if ss != [] {
      ScrapeTraceFiltered(ss[1..], n);
    }
  }

  /** The recursive walk of CrawlNow: scrape a node, then walk each child in sibling order. */
  function Walk(ss: seq<FilteredScraper>, n: Node): seq<string>
    decreases n, 1
  {
    ScrapeTrace(ss, n) + WalkAll(ss, n.children)
  }

  /** Walk each of a list of siblings, one after the other. */
  function WalkAll(ss: seq<FilteredScraper>, cs: seq<Node>): seq<string>
    decreases cs, 0
  {
    if cs == [] then [] else Walk(ss, cs[0]) + WalkAll(ss, cs[1..])
  }

  /** Walking one more sibling adds its walk after the others. */
  lemma {:induction false} WalkAllSnoc(ss: seq<FilteredScraper>, cs: seq<Node>, c: Node)
    ensures WalkAll(ss, cs + [c]) == WalkAll(ss, cs) + Walk(ss, c)
    decreases |cs|
  {
    if cs == [] {
      assert [c][1..] == [];
      assert cs + [c] == [c];
    } else {
      assert (cs + [c])[1..] == cs[1..] + [c];
      WalkAllSnoc(ss, cs[1..], c);
    }
  }

  /** Scrape every node of a list, in list order. */
  function Visit(ss: seq<FilteredScraper>, nodes: seq<Node>): seq<string> {
    if nodes == [] then [] else ScrapeTrace(ss, nodes[0]) + Visit(ss, nodes[1..])
  }

  lemma {:induction false} VisitAppend(ss: seq<FilteredScraper>, a: seq<Node>, b: seq<Node>)
    ensures Visit(ss, a + b) == Visit(ss, a) + Visit(ss, b)
  {
    if a == [] {
      assert a + b == b;
    } else {
      assert (a + b)[1..] == a[1..] + b;
      VisitAppend(ss, a[1..], b);
    }
  }

  /** The walk scrapes exactly the nodes of the tree, in pre-order. */
  lemma {:induction false} WalkIsPreOrder(ss: seq<FilteredScraper>, n: Node)
    ensures Walk(ss, n) == Visit(ss, PreOrder(n))
    decreases n, 1
  {
    WalkAllIsPreOrder(ss, n.children);
    VisitAppend(ss, [n], PreOrderAll(n.children));
    assert Visit(ss, [n]) == ScrapeTrace(ss, n);
  }

  lemma {:induction false} WalkAllIsPreOrder(ss: seq<FilteredScraper>, cs: seq<Node>)
    ensures WalkAll(ss, cs) == Visit(ss, PreOrderAll(cs))
    decreases cs, 0
  {
    if cs != [] {
      WalkIsPreOrder(ss, cs[0]);
      WalkAllIsPreOrder(ss, cs[1..]);
      VisitAppend(ss, PreOrder(cs[0]), PreOrderAll(cs[1..]));
    }
  }

  /**
   * The loop of Crawler.Scrape: each scraper in list order, and only those
   * whose filter accepts the node.
   */
  method ApplyScrapers(ss: seq<FilteredScraper>, n: Node) returns (trace: seq<string>)
    ensures trace == ScrapeTrace(ss, n)
  {
    trace := [];
    for i := 0 to |ss|
      invariant trace == ScrapeTrace(ss[..i], n)
    {
      assert ss[..i + 1] == ss[..i] + [ss[i]];
      ScrapeTraceAppend(ss[..i], ss[i], n);
      if ss[i].filter(n) {
        trace := trace + ss[i].scrape(n);
      }
    }
    assert ss[..|ss|] == ss;
  }

  /**
   * The recursive closure of CrawlNow: scrape the node, then recurse into
   * each child from the first to the last sibling. The emissions are those
   * of the nodes of the tree in pre-order.
   */
  method WalkTree(ss: seq<FilteredScraper>, n: Node) returns (trace: seq<string>)
    ensures trace == Walk(ss, n) == Visit(ss, PreOrder(n))
    decreases n
  {
    trace := ApplyScrapers(ss, n);
    for i := 0 to |n.children|
      invariant trace == ScrapeTrace(ss, n) + WalkAll(ss, n.children[..i])
    {
      var t := WalkTree(ss, n.children[i]);
      assert n.children[..i + 1] == n.children[..i] + [n.children[i]];
      WalkAllSnoc(ss, n.children[..i], n.children[i]);
      trace := trace + t;
    }
    assert n.children[..|n.children|] == n.children;
    WalkIsPreOrder(ss, n);
  }

  /** `ns1.Then(ns2)`: run ns1 on the node, then ns2 on the same node. */
  function Then(ns1: NodeScraper, ns2: NodeScraper): (ns: NodeScraper)
    ensures forall n :: ns(n) == ns1(n) + ns2(n)
  {
    (n: Node) => ns1(n) + ns2(n)
  }

  /** Chained scrapers run in the order written, however the chain is bracketed. */
  lemma ThenAssociative(ns1: NodeScraper, ns2: NodeScraper, ns3: NodeScraper, n: Node)
    ensures Then(Then(ns1, ns2), ns3)(n) == Then(ns1, Then(ns2, ns3))(n) == ns1(n) + ns2(n) + ns3(n)
  {
  }

  /** Registering `ns1.Then(ns2)` under a filter emits what registering ns1 and then ns2 under that filter emits. */
  lemma ThenSplits(ss: seq<FilteredScraper>, f: NodeFilter, ns1: NodeScraper, ns2: NodeScraper, n: Node)
    ensures ScrapeTrace(ss + [FilteredScraper(f, Then(ns1, ns2))], n) ==
      ScrapeTrace(ss + [FilteredScraper(f, ns1), FilteredScraper(f, ns2)], n)
  {
    var one := FilteredScraper(f, ns1);
    var two := FilteredScraper(f, ns2);
    ScrapeTraceAppend(ss, FilteredScraper(f, Then(ns1, ns2)), n);
    ScrapeTraceAppend(ss, one, n);
    ScrapeTraceAppend(ss + [one], two, n);
    assert ss + [one, two] == ss + [one] + [two];
  }

  /** A process-wide list of discovered addresses (the packages' `Urls` variables). */
  class UrlList {
    var urls: seq<string>

    constructor ()
      ensures urls == []
    {
      urls := [];
    }
  }

  /**
   * ScrapeUrls appends the node's `src` and `href` values to the list, in
   * attribute order; other keys are ignored and earlier entries stay.
   */
  method ScrapeUrls(urls: UrlList, n: Node)
    modifies urls
    ensures urls.urls == old(urls.urls) + Links(n.attrs)
  {
    for i := 0 to |n.attrs|
      invariant urls.urls == old(urls.urls) + Links(n.attrs[..i])
    {
      LinksSnoc(n.attrs, i);
      if IsLink(n.attrs[i]) {
        urls.urls := urls.urls + [n.attrs[i].val];
      }
    }
    assert n.attrs[..|n.attrs|] == n.attrs;
  }
}
