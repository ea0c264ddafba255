/**
 * The polling scheduler of the older crawler package: a fixed array of
 * crawlers and a deque of jobs. Each pass of Spawn's loop moves the jobs
 * waiting on the backlog into the deque, decides whether to return, and
 * then visits the crawlers in index order, marking those whose done signal
 * has fired as ready and handing the front job to each ready crawler.
 *
 * In one pass the backlog's waiting jobs are the parameter `polled`, and
 * the done signals that fire are `signalled` (one flag per crawler).
 */
module CrawlerSwarm {
  import opened Wrappers
  import opened Scraping
  import opened UtilDeque
  import opened CrawlerCrawler

  const SwarmSize: nat := 10

  /** A spawner, given by the scrapers every crawler it makes is configured with. */
  datatype Spawner = Spawner(scrapers: seq<FilteredScraper>)

  /** Calls the spawner: a new crawler with the spawner's scrapers added in order. */
  method SpawnCrawler(spawner: Spawner) returns (c: Crawler)
    ensures fresh(c)
    ensures c.scrapers == spawner.scrapers && c.root.None? && c.ready && c.started == []
  {
    c := new Crawler.NewCrawler();
    for i := 0 to |spawner.scrapers|
      invariant c.scrapers == spawner.scrapers[..i] && c.root.None? && c.ready && c.started == []
    {
      assert spawner.scrapers[..i + 1] == spawner.scrapers[..i] + [spawner.scrapers[i]];
      var _ := c.AddScraper(spawner.scrapers[i].scrape, spawner.scrapers[i].filter);
    }
    assert spawner.scrapers[..|spawner.scrapers|] == spawner.scrapers;
  }

  /** No crawler appears twice. */
  predicate Distinct(cs: seq<Crawler>) {
    forall i, j :: 0 <= i < j < |cs| ==> cs[i] != cs[j]
  }

  /** The Ready flags of the crawlers, in index order. */
  function ReadyFlags(cs: seq<Crawler>): (r: seq<bool>)
    reads cs
    ensures |r| == |cs| && forall i :: 0 <= i < |cs| ==> r[i] == cs[i].ready
  {
    if cs == [] then [] else ReadyFlags(cs[..|cs| - 1]) + [cs[|cs| - 1].ready]
  }

  /** A job handed out, as the list of at most one job. */
  function Opt(g: Option<string>): seq<string> {
    if g.Some? then [g.value] else []
  }

  /** The number of false flags. */
  function CountFalse(flags: seq<bool>): (r: nat)
    ensures r <= |flags|
    ensures r == 0 <==> forall i :: 0 <= i < |flags| ==> flags[i]
  {
    if flags == [] then 0
    else CountFalse(flags[..|flags| - 1]) + (if flags[|flags| - 1] then 0 else 1)
  }

  /** The jobs handed out, in crawler order. */
  function Handed(given: seq<Option<string>>): (h: seq<string>)
    ensures |h| <= |given|
  {
    if given == [] then []
    else
      var g := given[|given| - 1];
      Handed(given[..|given| - 1]) + (if g.Some? then [g.value] else [])
  }

  /** What an assignment pass has done so far: the job each crawler was given, the new Ready flags and the jobs left. */
  datatype Outcome = Outcome(given: seq<Option<string>>, ready: seq<bool>, rest: seq<string>)

  /**
   * The visit of one crawler in the pass. The crawler is ready if it was,
   * or if its done signal fired; a ready crawler takes the front job if one
   * is left. With `marksBusy` a crawler that takes a job stops being ready;
   * without it, as the code is written, its flag stays set.
   */
  function Step(o: Outcome, ready: bool, fired: bool, marksBusy: bool): Outcome {
    var r := ready || fired;
    var takes := r && o.rest != [];
    Outcome(o.given + [if takes then Some(o.rest[0]) else None],
            o.ready + [if takes then !marksBusy else r],
            if takes then o.rest[1..] else o.rest)
  }

  /** The pass over the first n crawlers, in index order, starting from the deque q. */
  function Assign(ready: seq<bool>, signalled: seq<bool>, q: seq<string>, marksBusy: bool, n: nat): (o: Outcome)
    requires n <= |ready| == |signalled|
    ensures |o.given| == n && |o.ready| == n
  {
    if n == 0 then Outcome([], [], q)
    else Step(Assign(ready, signalled, q, marksBusy, n - 1), ready[n - 1], signalled[n - 1], marksBusy)
  }

  /** Visiting more crawlers does not change what the earlier ones were given or their flags. */
  lemma {:induction false} AssignStable(ready: seq<bool>, signalled: seq<bool>, q: seq<string>, marksBusy: bool, k: nat, n: nat)
    requires k < n <= |ready| == |signalled|
    ensures Assign(ready, signalled, q, marksBusy, n).given[k] == Assign(ready, signalled, q, marksBusy, k + 1).given[k]
    ensures Assign(ready, signalled, q, marksBusy, n).ready[k] == Assign(ready, signalled, q, marksBusy, k + 1).ready[k]
    ensures Assign(ready, signalled, q, marksBusy, n).given[..k] == Assign(ready, signalled, q, marksBusy, k).given
    decreases n
  {
    if n > k + 1 {
      AssignStable(ready, signalled, q, marksBusy, k, n - 1);
      var o := Assign(ready, signalled, q, marksBusy, n - 1);
      assert Assign(ready, signalled, q, marksBusy, n).given[..n - 1] == o.given;
    } else {
      var o := Assign(ready, signalled, q, marksBusy, k);
      assert Assign(ready, signalled, q, marksBusy, n).given[..k] == o.given;
    }
  }

  /** The visit of crawler i extends the first i visits, and what it decides is what the full pass records for i. */
  lemma AssignVisit(ready: seq<bool>, signalled: seq<bool>, q: seq<string>, marksBusy: bool, i: nat, n: nat)
    requires i < n <= |ready| == |signalled|
    ensures var o := Step(Assign(ready, signalled, q, marksBusy, i), ready[i], signalled[i], marksBusy);
      Assign(ready, signalled, q, marksBusy, i + 1) == o &&
      Assign(ready, signalled, q, marksBusy, n).given[i] == o.given[i] &&
      Assign(ready, signalled, q, marksBusy, n).ready[i] == o.ready[i]
  {
    AssignStable(ready, signalled, q, marksBusy, i, n);
  }

  /**
   * One visit hands out the front job or nothing: the job, if any, moves
   * from the deque to the end of the handed-out list, and the crawler's new
   * flag is its readiness, cleared when it takes a job and `marksBusy`.
   */
  lemma StepRule(p: Outcome, ready: bool, fired: bool, marksBusy: bool)
    ensures var o := Step(p, ready, fired, marksBusy);
      |o.given| == |p.given| + 1 && o.given[..|p.given|] == p.given &&
      Handed(o.given) + o.rest == Handed(p.given) + p.rest &&
      (o.given[|p.given|].Some? <==> (ready || fired) && p.rest != []) &&
      o.ready[|o.ready| - 1] == ((ready || fired) && !(marksBusy && o.given[|p.given|].Some?))
  {
    var o := Step(p, ready, fired, marksBusy);
    assert o.given[..|o.given| - 1] == p.given;
    if o.given[|o.given| - 1].Some? {
      assert Handed(o.given) == Handed(p.given) + [p.rest[0]];
      assert p.rest == [p.rest[0]] + o.rest;
    } else {
      assert Handed(o.given) == Handed(p.given);
    }
  }

  /** No job is lost or duplicated: the jobs handed out, then those left, are the deque in order. */
  lemma {:induction false} AssignConserves(ready: seq<bool>, signalled: seq<bool>, q: seq<string>, marksBusy: bool, n: nat)
    requires n <= |ready| == |signalled|
    ensures var o := Assign(ready, signalled, q, marksBusy, n);
      Handed(o.given) + o.rest == q
  {
    if n > 0 {
      AssignConserves(ready, signalled, q, marksBusy, n - 1);
      StepRule(Assign(ready, signalled, q, marksBusy, n - 1), ready[n - 1], signalled[n - 1], marksBusy);
    }
  }

  /**
   * Crawler i is given a job exactly when it is ready after its signal and
   * jobs are left after those handed to crawlers 0..i-1; the job it gets is
   * the next one in deque order.
   */
  lemma AssignGiven(ready: seq<bool>, signalled: seq<bool>, q: seq<string>, marksBusy: bool, i: nat)
    requires i < |ready| == |signalled|
    ensures var o := Assign(ready, signalled, q, marksBusy, |ready|);
      var before := |Handed(o.given[..i])|;
      (o.given[i].Some? <==> (ready[i] || signalled[i]) && before < |q|) &&
      (o.given[i].Some? ==> before < |q| && o.given[i].value == q[before])
  {
    AssignStable(ready, signalled, q, marksBusy, i, |ready|);
    AssignConserves(ready, signalled, q, marksBusy, i);
    var p := Assign(ready, signalled, q, marksBusy, i);
    if p.rest != [] {
      assert q[|Handed(p.given)|] == p.rest[0];
    }
  }

  /** Crawler i's new flag: ready after its signal, and no longer so if it took a job when marking busy. */
  lemma AssignReady(ready: seq<bool>, signalled: seq<bool>, q: seq<string>, marksBusy: bool, i: nat)
    requires i < |ready| == |signalled|
    ensures var o := Assign(ready, signalled, q, marksBusy, |ready|);
      o.ready[i] == ((ready[i] || signalled[i]) && !(marksBusy && o.given[i].Some?))
  {
    AssignStable(ready, signalled, q, marksBusy, i, |ready|);
  }

  /** With every crawler ready, the first jobs go to the crawlers in index order, one each. */
  lemma {:induction false} AssignAllReady(ready: seq<bool>, signalled: seq<bool>, q: seq<string>, marksBusy: bool, n: nat)
    requires n <= |ready| == |signalled| && forall i :: 0 <= i < |ready| ==> ready[i]
    ensures var o := Assign(ready, signalled, q, marksBusy, n);
      (forall i :: 0 <= i < n ==> o.given[i] == if i < |q| then Some(q[i]) else None) &&
      o.rest == if n < |q| then q[n..] else []
  {
    if n > 0 {
      AssignAllReady(ready, signalled, q, marksBusy, n - 1);
      var p := Assign(ready, signalled, q, marksBusy, n - 1);
      if n - 1 < |q| {
        assert p.rest[0] == q[n - 1];
        assert p.rest[1..] == q[n..];
      }
    }
  }

  /** Spawn's test after polling: no job in the deque and no crawler running. */
  predicate Finishes(ready: seq<bool>, q: seq<string>) {
    q == [] && CountFalse(ready) == 0
  }

  /**
   * As written, a crawler keeps its Ready flag while its job runs: with all
   * ten crawlers ready and just the seed in the deque, the pass hands the
   * seed to crawler 0 and leaves every flag set, so the next pass, finding
   * nothing new on the backlog, returns while that crawl is still going.
   */
  lemma AsWrittenReturnsWhileCrawling()
    ensures var o := Assign(seq(SwarmSize, _ => true), seq(SwarmSize, _ => false), ["seed"], false, SwarmSize);
      o.given[0] == Some("seed") && Finishes(o.ready, o.rest)
  {
    var ready := seq(SwarmSize, _ => true);
    var signalled := seq(SwarmSize, _ => false);
    var o := Assign(ready, signalled, ["seed"], false, SwarmSize);
    AssignAllReady(ready, signalled, ["seed"], false, SwarmSize);
    forall i | 0 <= i < SwarmSize
      ensures o.ready[i]
    {
      AssignReady(ready, signalled, ["seed"], false, i);
    }
  }

  /**
   * Marking a crawler busy when it takes a job makes the Ready flags track
   * the crawls in flight: after the pass a crawler is not ready exactly when
   * it was just given a job or its earlier job is still running. So Spawn's
   * test can then succeed only when no crawl is running.
   */
  lemma CorrectedTracksCrawls(ready: seq<bool>, signalled: seq<bool>, q: seq<string>, running: seq<bool>)
    requires |signalled| == |ready| == |running|
    requires forall i :: 0 <= i < |ready| ==> (!ready[i] <==> running[i])
    ensures var o := Assign(ready, signalled, q, true, |ready|);
      (forall i :: 0 <= i < |ready| ==> (!o.ready[i] <==> o.given[i].Some? || (running[i] && !signalled[i]))) &&
      (Finishes(o.ready, o.rest) ==> forall i :: 0 <= i < |ready| ==> o.given[i].None?)
  {
    var o := Assign(ready, signalled, q, true, |ready|);
    forall i | 0 <= i < |ready|
      ensures !o.ready[i] <==> o.given[i].Some? || (running[i] && !signalled[i])
    {
      AssignReady(ready, signalled, q, true, i);
    }
  }

  /** With the correction, the seed's crawl keeps the next pass from returning. */
  lemma CorrectedWaitsForSeed()
    ensures var o := Assign(seq(SwarmSize, _ => true), seq(SwarmSize, _ => false), ["seed"], true, SwarmSize);
      o.given[0] == Some("seed") && !o.ready[0] && !Finishes(o.ready, o.rest)
  {
    var ready := seq(SwarmSize, _ => true);
    var signalled := seq(SwarmSize, _ => false);
    AssignAllReady(ready, signalled, ["seed"], true, SwarmSize);
    AssignReady(ready, signalled, ["seed"], true, 0);
  }

  class Swarm {
    const spawner: Spawner
    const crawlers: seq<Crawler>
    const jobs: Deque<string>

    ghost predicate Valid()
      reads this
    {
      |crawlers| == SwarmSize && Distinct(crawlers)
    }

    /** NewSwarm: every slot filled by a call of the spawner, and an empty job deque. */
    constructor NewSwarm(spawner: Spawner)
      ensures Valid() && this.spawner == spawner && fresh(jobs) && jobs.members == []
      ensures forall i :: 0 <= i < |crawlers| ==> fresh(crawlers[i])
      ensures forall i :: 0 <= i < |crawlers| ==>
        crawlers[i].scrapers == spawner.scrapers && crawlers[i].root.None? &&
        crawlers[i].ready && crawlers[i].started == []
    {
      var cs: seq<Crawler> := [];
      for i := 0 to SwarmSize
        invariant |cs| == i && Distinct(cs)
        invariant forall k :: 0 <= k < i ==> fresh(cs[k])
        invariant forall k :: 0 <= k < i ==>
          cs[k].scrapers == spawner.scrapers && cs[k].root.None? && cs[k].ready && cs[k].started == []
      {
        var c := SpawnCrawler(spawner);
        cs := cs + [c];
      }
      this.spawner := spawner;
      crawlers := cs;
      jobs := new Deque<string>();
    }

    /** SeedJobs: the jobs join the back of the deque in argument order; returns the same swarm. */
    method SeedJobs(seeds: seq<string>) returns (self: Swarm)
      modifies jobs
      ensures self == this && jobs.members == old(jobs.members) + seeds
    {
      for i := 0 to |seeds|
        invariant jobs.members == old(jobs.members) + seeds[..i]
      {
        assert seeds[..i + 1] == seeds[..i] + [seeds[i]];
        jobs.Insert(seeds[i]);
      }
      assert seeds[..|seeds|] == seeds;
      self := this;
    }

    /** countRunning: the number of crawlers that are not ready, between 0 and SwarmSize. */
    method CountRunning() returns (count: nat)
      requires Valid()
      ensures count == CountFalse(ReadyFlags(crawlers)) && count <= SwarmSize
    {
      ghost var flags := ReadyFlags(crawlers);
      count := 0;
      for i := 0 to |crawlers|
        invariant count == CountFalse(flags[..i])
      {
        assert flags[..i + 1][..i] == flags[..i];
        if !crawlers[i].ready {
          count := count + 1;
        }
      }
      assert flags[..|crawlers|] == flags;
    }

    /** refreshCrawler as written: the front job goes to the crawler, whose Ready flag is left as it was. */
    method RefreshCrawlerAsWritten(id: nat)
      requires id < |crawlers| && jobs.members != []
      modifies jobs, crawlers[id]
      ensures jobs.members == old(jobs.members)[1..]
      ensures crawlers[id].started == old(crawlers[id].started) + [old(jobs.members)[0]]
      ensures crawlers[id].ready == old(crawlers[id].ready)
      ensures crawlers[id].scrapers == old(crawlers[id].scrapers) && crawlers[id].root == old(crawlers[id].root)
    {
      var job := jobs.TakeOne();
      crawlers[id].Crawl(job);
    }

    /** refreshCrawler with the correction: the front job goes to the crawler, which is then not ready. */
    method RefreshCrawler(id: nat)
      requires id < |crawlers| && jobs.members != []
      modifies jobs, crawlers[id]
      ensures jobs.members == old(jobs.members)[1..]
      ensures crawlers[id].started == old(crawlers[id].started) + [old(jobs.members)[0]]
      ensures !crawlers[id].ready
      ensures crawlers[id].scrapers == old(crawlers[id].scrapers) && crawlers[id].root == old(crawlers[id].root)
    {
      var job := jobs.TakeOne();
      crawlers[id].Crawl(job);
      crawlers[id].ready := false;
    }

    /**
     * One pass of Spawn's loop: the polled jobs join the deque; if then the
     * deque is empty and no crawler is running the pass reports that Spawn
     * returns; otherwise the crawlers are visited in index order as Assign
     * describes. `marksBusy` false is the code as written (refreshCrawler
     * leaves Ready set); true applies the correction.
     */
    method Pass(polled: seq<string>, signalled: seq<bool>, marksBusy: bool) returns (finished: bool)
      requires Valid() && |signalled| == SwarmSize
      modifies jobs, crawlers
      ensures var R := old(ReadyFlags(crawlers));
        var q := old(jobs.members) + polled;
        var o := Assign(R, signalled, q, marksBusy, SwarmSize);
        (finished <==> Finishes(R, q)) &&
        (finished ==> jobs.members == q && forall i :: 0 <= i < SwarmSize ==>
          crawlers[i].ready == old(crawlers[i].ready) && crawlers[i].started == old(crawlers[i].started)) &&
        (!finished ==> jobs.members == o.rest && forall i :: 0 <= i < SwarmSize ==>
          (crawlers[i].ready == o.ready[i] &&
           crawlers[i].started == old(crawlers[i].started) + Opt(o.given[i])))
      ensures forall i :: 0 <= i < SwarmSize ==>
        crawlers[i].scrapers == old(crawlers[i].scrapers) && crawlers[i].root == old(crawlers[i].root)
    {
      ghost var R := ReadyFlags(crawlers);
      Poll(polled);
      assert ReadyFlags(crawlers) == R;
      var empty := jobs.IsEmpty();
      var running := CountRunning();
      if empty && running == 0 {
        return true;
      }
      finished := false;
      AssignPass(signalled, R, marksBusy);
    }

    /** The inner polling loop: every job waiting on the backlog joins the back of the deque, in order. */
    method Poll(polled: seq<string>)
      modifies jobs
      ensures jobs.members == old(jobs.members) + polled
    {
      for j := 0 to |polled|
        invariant jobs.members == old(jobs.members) + polled[..j]
      {
        assert polled[..j + 1] == polled[..j] + [polled[j]];
        jobs.Insert(polled[j]);
      }
      assert polled[..|polled|] == polled;
    }

    /** The loop over the crawlers, in index order, as Assign describes it. */
    method AssignPass(signalled: seq<bool>, ghost R: seq<bool>, marksBusy: bool)
      requires Valid() && |signalled| == SwarmSize && |R| == SwarmSize
      requires forall k :: 0 <= k < SwarmSize ==> crawlers[k].ready == R[k]
      modifies jobs, crawlers
      ensures var o := Assign(R, signalled, old(jobs.members), marksBusy, SwarmSize);
        jobs.members == o.rest &&
        forall k :: 0 <= k < SwarmSize ==> (crawlers[k].ready == o.ready[k] &&
          crawlers[k].started == old(crawlers[k].started) + Opt(o.given[k]))
      ensures forall k :: 0 <= k < SwarmSize ==>
        crawlers[k].scrapers == old(crawlers[k].scrapers) && crawlers[k].root == old(crawlers[k].root)
    {
      ghost var Q := jobs.members;
      ghost var F := Assign(R, signalled, Q, marksBusy, SwarmSize);
      for i := 0 to SwarmSize
        invariant jobs.members == Assign(R, signalled, Q, marksBusy, i).rest
        invariant forall k :: 0 <= k < SwarmSize ==>
          crawlers[k].ready == (if k < i then F.ready[k] else R[k]) &&
          crawlers[k].started == old(crawlers[k].started) + (if k < i then Opt(F.given[k]) else []) &&
          crawlers[k].scrapers == old(crawlers[k].scrapers) && crawlers[k].root == old(crawlers[k].root)
      {
        assert forall k :: 0 <= k < SwarmSize && k != i ==> crawlers[k] != crawlers[i];
        AssignVisit(R, signalled, Q, marksBusy, i, SwarmSize);
        VisitCrawler(i, signalled[i], marksBusy, R[i], Assign(R, signalled, Q, marksBusy, i));
      }
    }

    /** The body of the loop over the crawlers, for crawler id, with refreshCrawler as written or corrected. */
    method VisitCrawler(id: nat, fired: bool, marksBusy: bool, ghost wasReady: bool, ghost p: Outcome)
      requires id < |crawlers| && crawlers[id].ready == wasReady && jobs.members == p.rest
      requires |p.given| == id && |p.ready| == id
      modifies jobs, crawlers[id]
      ensures var o := Step(p, wasReady, fired, marksBusy);
        jobs.members == o.rest && crawlers[id].ready == o.ready[id] &&
        crawlers[id].started == old(crawlers[id].started) + Opt(o.given[id])
      ensures crawlers[id].scrapers == old(crawlers[id].scrapers) && crawlers[id].root == old(crawlers[id].root)
    {
      if fired {
        crawlers[id].ready := true;
      }
      var empty := jobs.IsEmpty();
      if !empty && crawlers[id].ready {
        if marksBusy {
          RefreshCrawler(id);
        } else {
          RefreshCrawlerAsWritten(id);
        }
      }
    }
  }
}
