/**
 * The node scrapers of the older crawler package. RecoverUrls sends into a
 * channel; the channel is represented by the sequence of values sent.
 */
module CrawlerScrapers {
  import opened Html
  import opened Scraping

  /** The send side of a channel: every value sent, in order. */
  class Channel {
    var sent: seq<string>

    constructor ()
      ensures sent == []
    {
      sent := [];
    }
  }

  /**
   * RecoverUrls: sends every `src` and `href` value of the node, in
   * attribute order, with no early stop; the same values ScrapeUrls appends.
   */
  method RecoverUrls(generator: Channel, n: Node)
    modifies generator
    ensures generator.sent == old(generator.sent) + Links(n.attrs)
  {
    for i := 0 to |n.attrs|
      invariant generator.sent == old(generator.sent) + Links(n.attrs[..i])
    {
      LinksSnoc(n.attrs, i);
      if IsLink(n.attrs[i]) {
        generator.sent := generator.sent + [n.attrs[i].val];
      }
    }
    assert n.attrs[..|n.attrs|] == n.attrs;
  }
}
