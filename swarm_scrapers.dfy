/** The node scrapers of the swarm package. */
module SwarmScrapers {
  import opened Html
  import opened Scraping
  import opened MessagingDispatcher

  /**
   * What RecoverUrls dispatches from a node's links when the k-th dispatch
   * is answered accept(k), counting from `base`: the links in order, up to
   * and including the first one that is refused.
   */
  function RecoverPrefix(links: seq<string>, accept: nat -> bool, base: nat): (r: seq<string>)
    ensures |r| <= |links|
    decreases |links|
  {
    if links == [] then []
    else if accept(base) then [links[0]] + RecoverPrefix(links[1..], accept, base + 1)
    else [links[0]]
  }

  /**
   * What is dispatched is a prefix of the links; each dispatch but the last
   * was accepted; when every dispatch is accepted all the links go out, and
   * otherwise the last one dispatched was refused.
   */
  lemma {:induction false} RecoverPrefixMeaning(links: seq<string>, accept: nat -> bool, base: nat)
    ensures var r := RecoverPrefix(links, accept, base);
      r == links[..|r|] &&
      (forall k :: base <= k < base + |r| - 1 ==> accept(k)) &&
      ((forall k :: base <= k < base + |links| ==> accept(k)) ==> r == links) &&
      (r != links ==> |r| >= 1 && !accept(base + |r| - 1))
    decreases |links|
  {
    if links != [] && accept(base) {
      RecoverPrefixMeaning(links[1..], accept, base + 1);
      var t := RecoverPrefix(links[1..], accept, base + 1);
      assert links[..|t| + 1] == [links[0]] + links[1..][..|t|];
      if forall k :: base <= k < base + |links| ==> accept(k) {
        assert forall k :: base + 1 <= k < base + 1 + |links[1..]| ==> accept(k);
        assert links == [links[0]] + links[1..];
      }
    }
  }

  /** A refusal at the last of the links dispatched so far ends the dispatching there. */
  lemma {:induction false} RecoverPrefixStops(p: seq<string>, q: seq<string>, accept: nat -> bool, base: nat)
    requires |p| >= 1 && !accept(base + |p| - 1)
    requires forall k :: base <= k < base + |p| - 1 ==> accept(k)
    ensures RecoverPrefix(p + q, accept, base) == p
    decreases |p|
  {
    if |p| > 1 {
      assert (p + q)[1..] == p[1..] + q;
      RecoverPrefixStops(p[1..], q, accept, base + 1);
    }
  }

  /** In terms of attributes: a refusal at the link of attribute i ends the dispatching after it. */
  lemma RecoverStopsAt(attrs: seq<Attribute>, i: nat, accept: nat -> bool, base: nat)
    requires i < |attrs| && IsLink(attrs[i])
    requires Links(attrs[..i + 1]) == Links(attrs[..i]) + [attrs[i].val]
    requires !accept(base + |Links(attrs[..i])|)
    requires forall k :: base <= k < base + |Links(attrs[..i])| ==> accept(k)
    ensures RecoverPrefix(Links(attrs), accept, base) == Links(attrs[..i + 1])
  {
    assert attrs == attrs[..i + 1] + attrs[i + 1..];
    LinksAppend(attrs[..i + 1], attrs[i + 1..]);
    RecoverPrefixStops(Links(attrs[..i + 1]), Links(attrs[i + 1..]), accept, base);
  }

  /**
   * RecoverUrls: dispatches the node's `src` and `href` values in order and
   * stops at the first dispatch that answers false.
   */
  method RecoverUrls(dispatcher: Recorder<string>, n: Node)
    modifies dispatcher
    ensures dispatcher.closes == old(dispatcher.closes)
    ensures dispatcher.forwarded ==
      old(dispatcher.forwarded) + RecoverPrefix(Links(n.attrs), dispatcher.script, |old(dispatcher.forwarded)|)
  {
    var base := |dispatcher.forwarded|;
    ghost var sent: seq<string> := [];
    var i := 0;
    while i < |n.attrs|
      invariant 0 <= i <= |n.attrs| && sent == Links(n.attrs[..i])
      invariant dispatcher.closes == old(dispatcher.closes)
      invariant dispatcher.forwarded == old(dispatcher.forwarded) + sent
      invariant forall k :: base <= k < base + |sent| ==> dispatcher.script(k)
    {
      LinksSnoc(n.attrs, i);
      if IsLink(n.attrs[i]) {
        var ok := dispatcher.Dispatch(n.attrs[i].val);
        if !ok {
          RecoverStopsAt(n.attrs, i, dispatcher.script, base);
          return;
        }
        sent := sent + [n.attrs[i].val];
      }
      i := i + 1;
    }
    assert n.attrs[..|n.attrs|] == n.attrs;
    RecoverPrefixMeaning(Links(n.attrs), dispatcher.script, base);
  }
}
