/**
 * The swarm of the swarm package: a fixed set of crawlers, each run by a
 * worker that reads the shared backlog, and the dispatcher the crawlers'
 * discoveries go to.
 */
module SwarmSwarm {
  import opened Wrappers
  import opened Html
  import opened Scraping
  import opened SwarmCrawler
  import opened MessagingDispatcher
  import opened MessagingQueue

  const SwarmSize: nat := 5

  /** A spawner, given by the scrapers every crawler it makes is configured with. */
  datatype Spawner = Spawner(scrapers: seq<FilteredScraper>)

  /** Calls the spawner: a new crawler with the spawner's scrapers added in order. */
  method SpawnCrawler(spawner: Spawner) returns (c: Crawler)
    ensures fresh(c)
    ensures c.scrapers == spawner.scrapers && c.root.None? && c.ready && !c.doneClosed
  {
    c := new Crawler.NewCrawler();
    for i := 0 to |spawner.scrapers|
      invariant c.scrapers == spawner.scrapers[..i] && c.root.None? && c.ready && !c.doneClosed
    {
      assert spawner.scrapers[..i + 1] == spawner.scrapers[..i] + [spawner.scrapers[i]];
      var _ := c.AddScraper(spawner.scrapers[i].scrape, spawner.scrapers[i].filter);
    }
    assert spawner.scrapers[..|spawner.scrapers|] == spawner.scrapers;
  }

  /** No crawler appears twice. */
  predicate Distinct(cs: seq<Crawler>) {
    forall i, j :: 0 <= i < j < |cs| ==> cs[i] != cs[j]
  }

  /** The number of crawlers that are not ready. */
  function CountNotReady(cs: seq<Crawler>): (r: nat)
    reads cs
    ensures r <= |cs|
    ensures r == 0 <==> forall i :: 0 <= i < |cs| ==> cs[i].ready
  {
    if cs == [] then 0
    else CountNotReady(cs[..|cs| - 1]) + (if cs[|cs| - 1].ready then 0 else 1)
  }

  /** The number of workers whose done channel is closed. */
  function CountDone(ws: seq<Worker>): (r: nat)
    reads ws
    ensures r <= |ws|
    ensures r == |ws| <==> forall i :: 0 <= i < |ws| ==> ws[i].doneClosed
  {
    if ws == [] then 0
    else CountDone(ws[..|ws| - 1]) + (if ws[|ws| - 1].doneClosed then 1 else 0)
  }

  /** The steps of Spawn that are visible from outside. */
  datatype Step = Start(worker: nat) | Await(worker: nat) | Die(worker: nat) | CloseDispatcher

  /** Starting workers 0 to n-1, in index order. */
  function Starts(n: nat): (t: seq<Step>)
    ensures |t| == n
    ensures forall k :: 0 <= k < n ==> t[k] == Start(k)
  {
    if n == 0 then [] else Starts(n - 1) + [Start(n - 1)]
  }

  /** Awaiting and then killing workers 0 to n-1, one worker after the other. */
  function Teardown(n: nat): (t: seq<Step>)
    ensures |t| == 2 * n
  {
    if n == 0 then [] else Teardown(n - 1) + [Await(n - 1), Die(n - 1)]
  }

  /** In the teardown, worker k's await comes at 2k and its Die right after; no step closes the dispatcher. */
  lemma {:induction false} TeardownSteps(n: nat)
    ensures forall k :: 0 <= k < n ==> Teardown(n)[2 * k] == Await(k) && Teardown(n)[2 * k + 1] == Die(k)
    ensures forall k :: 0 <= k < 2 * n ==> !Teardown(n)[k].CloseDispatcher?
  {
    if n > 0 {
      TeardownSteps(n - 1);
      var t := Teardown(n);
      assert t[..2 * (n - 1)] == Teardown(n - 1);
      forall k | 0 <= k < n - 1
        ensures t[2 * k] == Await(k) && t[2 * k + 1] == Die(k)
      {
        assert t[2 * k] == t[..2 * (n - 1)][2 * k];
        assert t[2 * k + 1] == t[..2 * (n - 1)][2 * k + 1];
      }
      forall k | 0 <= k < 2 * (n - 1)
        ensures !t[k].CloseDispatcher?
      {
        assert t[k] == t[..2 * (n - 1)][k];
      }
    }
  }

  /** The order Spawn promises when every worker finishes. */
  function ShutdownOrder(n: nat): seq<Step> {
    Starts(n) + Teardown(n) + [CloseDispatcher]
  }

  /**
   * In the shutdown order every worker is started first; worker i is awaited
   * and then killed before worker i + 1 is awaited; and the dispatcher is
   * closed once, after all of them.
   */
  lemma ShutdownOrderSteps(n: nat, i: nat)
    requires i < n
    ensures ShutdownOrder(n)[i] == Start(i)
    ensures ShutdownOrder(n)[n + 2 * i] == Await(i) && ShutdownOrder(n)[n + 2 * i + 1] == Die(i)
    ensures |ShutdownOrder(n)| == 3 * n + 1 && ShutdownOrder(n)[3 * n] == CloseDispatcher
    ensures forall k :: 0 <= k < 3 * n ==> !ShutdownOrder(n)[k].CloseDispatcher?
  {
    TeardownSteps(n);
  }

  /** The index of the first worker whose events never stop it, or the number of workers. */
  function FirstBlocked(schedules: seq<seq<Event>>): (b: nat)
    ensures b <= |schedules|
    ensures forall i :: 0 <= i < b ==> StopAt(schedules[i]) < |schedules[i]|
    ensures b < |schedules| ==> StopAt(schedules[b]) == |schedules[b]|
  {
    if schedules == [] then 0
    else if StopAt(schedules[0]) == |schedules[0]| then 0
    else 1 + FirstBlocked(schedules[1..])
  }

  /** Up to the first blocked worker, a worker's events stop it exactly when it comes before that one. */
  lemma FirstBlockedAt(schedules: seq<seq<Event>>, i: nat)
    requires i <= FirstBlocked(schedules) && i < |schedules|
    ensures StopAt(schedules[i]) < |schedules[i]| <==> i < FirstBlocked(schedules)
  {
  }

  /** The scrapers of each crawler, in index order. */
  function ScraperLists(cs: seq<Crawler>): (r: seq<seq<FilteredScraper>>)
    reads cs
    ensures |r| == |cs| && forall i :: 0 <= i < |cs| ==> r[i] == cs[i].scrapers
  {
    if cs == [] then [] else ScraperLists(cs[..|cs| - 1]) + [cs[|cs| - 1].scrapers]
  }

  /**
   * What the scrapers of the first n crawlers emit while their workers run
   * over their events, worker after worker: a worker crawls every job
   * received before the event that stops it, or all of them if none does.
   */
  function Discoveries(ss: seq<seq<FilteredScraper>>, fetch: string -> Option<Node>, schedules: seq<seq<Event>>, n: nat): seq<string>
    requires n <= |ss| && n <= |schedules|
  {
    if n == 0 then []
    else
      var events := schedules[n - 1];
      Discoveries(ss, fetch, schedules, n - 1) + RunTrace(ss[n - 1], fetch, JobsOf(events[..StopAt(events)]))
  }

  class Swarm {
    const spawner: Spawner
    const crawlers: seq<Crawler>
    var jobs: seq<string>
    var incoming: Queue?<string>
    var dispatcher: Recorder?<string>

    ghost predicate Valid()
      reads this
    {
      |crawlers| == SwarmSize && Distinct(crawlers)
    }

    /** NewSwarm: every slot filled by a call of the spawner, no jobs. */
    constructor NewSwarm(spawner: Spawner)
      ensures Valid() && this.spawner == spawner
      ensures jobs == [] && incoming == null && dispatcher == null
      ensures forall i :: 0 <= i < |crawlers| ==> fresh(crawlers[i])
      ensures forall i :: 0 <= i < |crawlers| ==>
        crawlers[i].scrapers == spawner.scrapers && crawlers[i].root.None? &&
        crawlers[i].ready && !crawlers[i].doneClosed
    {
      var cs: seq<Crawler> := [];
      for i := 0 to SwarmSize
        invariant |cs| == i && Distinct(cs)
        invariant forall k :: 0 <= k < i ==> fresh(cs[k])
        invariant forall k :: 0 <= k < i ==>
          cs[k].scrapers == spawner.scrapers && cs[k].root.None? && cs[k].ready && !cs[k].doneClosed
      {
        var c := SpawnCrawler(spawner);
        cs := cs + [c];
      }
      this.spawner := spawner;
      crawlers := cs;
      jobs := [];
      incoming := null;
      dispatcher := null;
    }

    /** countRunning: the number of crawlers that are not ready. */
    method CountRunning() returns (count: nat)
      requires Valid()
      ensures count == CountNotReady(crawlers) && count <= SwarmSize
    {
      count := 0;
      for i := 0 to |crawlers|
        invariant count == CountNotReady(crawlers[..i])
      {
        assert crawlers[..i + 1][..i] == crawlers[..i];
        if !crawlers[i].ready {
          count := count + 1;
        }
      }
      assert crawlers[..|crawlers|] == crawlers;
    }

    /** workersDone: the number of workers whose done channel is closed. */
    method WorkersDone(workers: seq<Worker>) returns (count: nat)
      requires |workers| == SwarmSize
      ensures count == CountDone(workers) && count <= SwarmSize
    {
      count := 0;
      for i := 0 to |workers|
        invariant count == CountDone(workers[..i])
      {
        assert workers[..i + 1][..i] == workers[..i];
        if workers[i].doneClosed {
          count := count + 1;
        }
      }
      assert workers[..|workers|] == workers;
    }

    /** SetIncoming stores the backlog and returns the same swarm. */
    method SetIncoming(incoming: Queue<string>) returns (self: Swarm)
      modifies this
      ensures self == this && this.incoming == incoming
      ensures jobs == old(jobs) && dispatcher == old(dispatcher)
    {
      this.incoming := incoming;
      self := this;
    }

    /** SetDispatcher stores the dispatcher, then dispatches each seed once, in order, ignoring the answers. */
    method SetDispatcher(dispatcher: Recorder<string>, seedJobs: seq<string>) returns (self: Swarm)
      modifies this, dispatcher
      ensures self == this && this.dispatcher == dispatcher
      ensures dispatcher.forwarded == old(dispatcher.forwarded) + seedJobs
      ensures dispatcher.closes == old(dispatcher.closes)
      ensures jobs == old(jobs) && incoming == old(incoming)
    {
      this.dispatcher := dispatcher;
      for i := 0 to |seedJobs|
        invariant this.dispatcher == dispatcher
        invariant dispatcher.forwarded == old(dispatcher.forwarded) + seedJobs[..i]
        invariant dispatcher.closes == old(dispatcher.closes)
        invariant jobs == old(jobs) && incoming == old(incoming)
      {
        assert seedJobs[..i + 1] == seedJobs[..i] + [seedJobs[i]];
        var _ := dispatcher.Dispatch(seedJobs[i]);
      }
      assert seedJobs[..|seedJobs|] == seedJobs;
      self := this;
    }

    /**
     * One step of Spawn's second loop: worker i runs over its events; once
     * its done channel is closed it has been awaited, and its crawler is
     * killed. No other worker or crawler changes.
     */
    method AwaitAndDie(workers: seq<Worker>, i: nat, events: seq<Event>, fetch: string -> Option<Node>)
      returns (finished: bool, emitted: seq<string>)
      requires Valid() && |workers| == SwarmSize && i < SwarmSize
      requires forall k :: 0 <= k < SwarmSize ==> workers[k].crawler == crawlers[k]
      requires !workers[i].doneClosed && !crawlers[i].doneClosed
      modifies workers[i], crawlers[i]
      ensures finished <==> StopAt(events) < |events|
      ensures workers[i].doneClosed == finished && crawlers[i].doneClosed == finished
      ensures emitted == RunTrace(old(crawlers[i].scrapers), fetch, JobsOf(events[..StopAt(events)]))
      ensures crawlers[i].root == LastFetched(JobsOf(events[..StopAt(events)]), fetch, old(crawlers[i].root))
      ensures forall k :: 0 <= k < SwarmSize ==> crawlers[k].scrapers == old(crawlers[k].scrapers)
      ensures forall k :: 0 <= k < SwarmSize && k != i ==>
        crawlers[k].doneClosed == old(crawlers[k].doneClosed) && workers[k].doneClosed == old(workers[k].doneClosed)
    {
      assert forall k :: 0 <= k < SwarmSize && k != i ==> crawlers[k] != crawlers[i] && workers[k] != workers[i];
      var w := workers[i];
      emitted, finished := w.Run(events, fetch);
      if finished {
        w.Die();
      }
    }

    /** The first half of Spawn: one worker per crawler, started in index order. */
    method StartWorkers() returns (workers: seq<Worker>, trace: seq<Step>)
      requires Valid()
      ensures |workers| == SwarmSize && trace == Starts(SwarmSize)
      ensures forall k :: 0 <= k < SwarmSize ==>
        fresh(workers[k]) && workers[k].crawler == crawlers[k] && !workers[k].doneClosed
    {
      workers := [];
      trace := [];
      for i := 0 to SwarmSize
        invariant |workers| == i && trace == Starts(i)
        invariant forall k :: 0 <= k < i ==>
          fresh(workers[k]) && workers[k].crawler == crawlers[k] && !workers[k].doneClosed
      {
        var w := new Worker(i, crawlers[i]);
        workers := workers + [w];
        trace := trace + [Start(i)];
      }
    }

    /**
     * The second half of Spawn: in index order, awaits each worker and
     * kills its crawler, collecting what the scrapers emit. A worker whose
     * events never stop it keeps Spawn waiting, so the later ones are never
     * awaited; `finished` says whether every worker was.
     */
    method AwaitAll(workers: seq<Worker>, schedules: seq<seq<Event>>, fetch: string -> Option<Node>, ghost S: seq<seq<FilteredScraper>>)
      returns (steps: seq<Step>, discovered: seq<string>, finished: bool)
      requires Valid() && |workers| == SwarmSize && |schedules| == SwarmSize
      requires |S| == SwarmSize && forall k :: 0 <= k < SwarmSize ==> crawlers[k].scrapers == S[k]
      requires forall k :: 0 <= k < SwarmSize ==>
        workers[k].crawler == crawlers[k] && !workers[k].doneClosed && !crawlers[k].doneClosed
      modifies workers, crawlers
      ensures var b := FirstBlocked(schedules);
        finished == (b == SwarmSize) && steps == Teardown(b) &&
        (forall k :: 0 <= k < SwarmSize ==> crawlers[k].doneClosed == (k < b)) &&
        discovered == Discoveries(S, fetch, schedules, if b < SwarmSize then b + 1 else SwarmSize)
      ensures forall k :: 0 <= k < SwarmSize ==> crawlers[k].scrapers == S[k]
    {
      var b := FirstBlocked(schedules);
      steps, discovered := [], [];
      var i := 0;
      while i < SwarmSize
        invariant 0 <= i <= b && steps == Teardown(i)
        invariant forall k :: i <= k < SwarmSize ==> !workers[k].doneClosed
        invariant forall k :: 0 <= k < SwarmSize ==> crawlers[k].doneClosed == (k < i)
        invariant forall k :: 0 <= k < SwarmSize ==> crawlers[k].scrapers == S[k]
        invariant discovered == Discoveries(S, fetch, schedules, i)
      {
        FirstBlockedAt(schedules, i);
        var done, emitted := AwaitAndDie(workers, i, schedules[i], fetch);
        discovered := discovered + emitted;
        assert discovered == Discoveries(S, fetch, schedules, i + 1);
        if !done {
          assert i == b;
          finished := false;
          return;
        }
        steps := steps + [Await(i), Die(i)];
        i := i + 1;
      }
      finished := true;
    }

    /**
     * Spawn: starts a worker per crawler, in index order; then, in index
     * order, awaits each worker and kills its crawler; finally closes the
     * dispatcher once. Worker i's Run consumes the events schedules[i]; a
     * worker whose events never stop it keeps Spawn waiting for it, so
     * nothing after its Await happens. What the workers' scrapers emit,
     * including the waiting worker's, is returned in worker order; the
     * dispatcher itself only sees the close.
     */
    method Spawn(schedules: seq<seq<Event>>, fetch: string -> Option<Node>) returns (trace: seq<Step>, discovered: seq<string>)
      requires Valid() && dispatcher != null && |schedules| == SwarmSize
      requires forall i :: 0 <= i < |crawlers| ==> !crawlers[i].doneClosed
      modifies crawlers, dispatcher
      ensures var b := FirstBlocked(schedules);
        trace == Starts(SwarmSize) + Teardown(b) + (if b == SwarmSize then [CloseDispatcher] else [])
        && (forall i :: 0 <= i < |crawlers| ==> crawlers[i].doneClosed == (i < b))
        && dispatcher.closes == old(dispatcher.closes) + (if b == SwarmSize then 1 else 0)
      ensures FirstBlocked(schedules) == SwarmSize ==> trace == ShutdownOrder(SwarmSize)
      ensures var b := FirstBlocked(schedules);
        discovered == Discoveries(old(ScraperLists(crawlers)), fetch, schedules, if b < SwarmSize then b + 1 else SwarmSize)
      ensures dispatcher.forwarded == old(dispatcher.forwarded)
      ensures forall i :: 0 <= i < |crawlers| ==> crawlers[i].scrapers == old(crawlers[i].scrapers)
    {
      var workers, starts := StartWorkers();
      var steps, finished;
      steps, discovered, finished := AwaitAll(workers, schedules, fetch, ScraperLists(crawlers));
      trace := starts + steps;
      if finished {
        dispatcher.Close();
        trace := trace + [CloseDispatcher];
      }
    }
  }
}
