/**
 * The crawler of the older crawler package. Fetching and parsing the
 * target is a parameter `fetch`: this generation always obtains a tree,
 * because a failed request or parse ends the process.
 */
module CrawlerCrawler {
  import opened Wrappers
  import opened Html
  import opened Scraping

  class Crawler {
    var scrapers: seq<FilteredScraper>
    var root: Option<Node>
    var ready: bool
    /** The targets handed to Crawl, in order (each starts a background crawl). */
    var started: seq<string>

    /** NewCrawler: no scrapers, no tree yet, ready for work. */
    constructor NewCrawler()
      ensures scrapers == [] && root == None && ready && started == []
    {
      scrapers := [];
      root := None;
      ready := true;
      started := [];
    }

    /** Applies the configured scrapers to one node, in list order. */
    method Scrape(n: Node) returns (trace: seq<string>)
      ensures trace == ScrapeTrace(scrapers, n)
    {
      trace := ApplyScrapers(scrapers, n);
    }

    /** Appends one (filter, scraper) pair after the existing ones and returns the same crawler. */
    method AddScraper(s: NodeScraper, f: NodeFilter) returns (self: Crawler)
      modifies this
      ensures self == this
      ensures scrapers == old(scrapers) + [FilteredScraper(f, s)]
      ensures root == old(root) && ready == old(ready) && started == old(started)
    {
      scrapers := scrapers + [FilteredScraper(f, s)];
      self := this;
    }

    /** Fetches and parses the target and keeps the tree as the crawler's root. */
    method GetNodeTree(target: string, fetch: string -> Node) returns (tree: Node)
      modifies this
      ensures tree == fetch(target) && root == Some(tree)
      ensures scrapers == old(scrapers) && ready == old(ready) && started == old(started)
    {
      tree := fetch(target);
      root := Some(tree);
    }

    /**
     * The blocking crawl: fetch the tree, then scrape every node of it in
     * pre-order, a node before its children and children in sibling order.
     */
    method CrawlNow(target: string, fetch: string -> Node) returns (trace: seq<string>)
      modifies this
      ensures root == Some(fetch(target))
      ensures trace == Visit(scrapers, PreOrder(fetch(target)))
      ensures scrapers == old(scrapers) && ready == old(ready) && started == old(started)
    {
      var tree := GetNodeTree(target, fetch);
      trace := WalkTree(scrapers, tree);
    }

    /** The non-blocking crawl: hands the target to a background crawl and returns. */
    method Crawl(target: string)
      modifies this
      ensures started == old(started) + [target]
      ensures scrapers == old(scrapers) && root == old(root) && ready == old(ready)
    {
      started := started + [target];
    }
  }
}
