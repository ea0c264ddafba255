/**
 * The crawler and worker of the swarm package. A fetch may fail, so the
 * fetch parameter answers a tree or nothing. The worker's view of its
 * backlog is a sequence of events: a job received, the channel found
 * closed, or nothing available, together with the lengths the backlog
 * reports at each later sample while the worker waits.
 */
module SwarmCrawler {
  import opened Wrappers
  import opened Html
  import opened Scraping

  /** What one CrawlNow emits: nothing if the fetch failed, else every node of the tree in pre-order. */
  function CrawlTrace(ss: seq<FilteredScraper>, tree: Option<Node>): seq<string> {
    match tree
    case None => []
    case Some(t) => Visit(ss, PreOrder(t))
  }

  class Crawler {
    var scrapers: seq<FilteredScraper>
    var root: Option<Node>
    var ready: bool
    /** Whether the Done channel has been closed (by Die). */
    var doneClosed: bool

    /** NewCrawler: no scrapers, no root, ready, Done open. */
    constructor NewCrawler()
      ensures scrapers == [] && root == None && ready && !doneClosed
    {
      scrapers := [];
      root := None;
      ready := true;
      doneClosed := false;
    }

    /** Applies the configured scrapers to one node, in list order. */
    method Scrape(n: Node) returns (trace: seq<string>)
      ensures trace == ScrapeTrace(scrapers, n)
    {
      trace := ApplyScrapers(scrapers, n);
    }

    /** Appends one (filter, scraper) pair after the existing ones and returns the same crawler. */
    method AddScraper(s: NodeScraper, f: NodeFilter) returns (self: Crawler)
      modifies this
      ensures self == this
      ensures scrapers == old(scrapers) + [FilteredScraper(f, s)]
      ensures root == old(root) && ready == old(ready) && doneClosed == old(doneClosed)
    {
      scrapers := scrapers + [FilteredScraper(f, s)];
      self := this;
    }

    /** Fetches the target; on success the parsed tree becomes the root, on failure the root is kept. */
    method PopulateNodeTree(target: string, fetch: string -> Option<Node>) returns (tree: Option<Node>)
      modifies this
      ensures tree == fetch(target)
      ensures root == (if tree.Some? then tree else old(root))
      ensures scrapers == old(scrapers) && ready == old(ready) && doneClosed == old(doneClosed)
    {
      tree := fetch(target);
      if tree.Some? {
        root := tree;
      }
    }

    /**
     * The blocking crawl: the root is cleared first; if the fetch fails no
     * scraper runs and the root stays empty, otherwise the root is the tree
     * and every node of it is scraped in pre-order.
     */
    method CrawlNow(target: string, fetch: string -> Option<Node>) returns (trace: seq<string>)
      modifies this
      ensures root == fetch(target)
      ensures trace == CrawlTrace(scrapers, fetch(target))
      ensures fetch(target) == None ==> trace == []
      ensures scrapers == old(scrapers) && ready == old(ready) && doneClosed == old(doneClosed)
    {
      root := None;
      var tree := PopulateNodeTree(target, fetch);
      trace := [];
      if tree.Some? {
        trace := WalkTree(scrapers, tree.value);
      }
    }

    /** Closes the Done channel; closing it a second time would panic. */
    method Die()
      requires !doneClosed
      modifies this
      ensures doneClosed
      ensures scrapers == old(scrapers) && root == old(root) && ready == old(ready)
    {
      doneClosed := true;
    }
  }

  /** The first n samples of the backlog length are all zero. */
  predicate AllZero(samples: nat -> nat, n: nat) {
    n == 0 || (samples(n - 1) == 0 && AllZero(samples, n - 1))
  }

  lemma {:induction false} AllZeroMeaning(samples: nat -> nat, n: nat)
    ensures AllZero(samples, n) <==> forall k :: 0 <= k < n ==> samples(k) == 0
  {
    if n > 0 {
      AllZeroMeaning(samples, n - 1);
    }
  }

  /** hasNoWork's verdict: the first eight samples of the backlog length are all zero. */
  predicate NoWork(samples: nat -> nat) {
    AllZero(samples, 8)
  }

  /** What a worker sees on one turn of its loop. */
  datatype Event =
    | Job(target: string)
    | Closed
    | Empty(samples: nat -> nat)

  /** The events that end the worker's loop. */
  predicate IsStop(e: Event) {
    e.Closed? || (e.Empty? && NoWork(e.samples))
  }

  /** The index of the first stopping event, or the length when there is none. */
  function StopAt(events: seq<Event>): (k: nat)
    ensures k <= |events|
    ensures forall i :: 0 <= i < k ==> !IsStop(events[i])
    ensures k < |events| ==> IsStop(events[k])
  {
    if events == [] then 0
    else if IsStop(events[0]) then 0
    else 1 + StopAt(events[1..])
  }

  /** The targets of the job events, in order. */
  function JobsOf(events: seq<Event>): (jobs: seq<string>)
    ensures |jobs| <= |events|
  {
    if events == [] then []
    else
      var e := events[|events| - 1];
      JobsOf(events[..|events| - 1]) + (if e.Job? then [e.target] else [])
  }

  /** What crawling the jobs one after the other emits. */
  /** The root a crawler is left with after crawling the jobs in order: the last fetch, or `before` if there was no job. */
  function LastFetched(jobs: seq<string>, fetch: string -> Option<Node>, before: Option<Node>): Option<Node> {
    if jobs == [] then before else fetch(jobs[|jobs| - 1])
  }

  function RunTrace(ss: seq<FilteredScraper>, fetch: string -> Option<Node>, jobs: seq<string>): seq<string> {
    if jobs == [] then []
    else RunTrace(ss, fetch, jobs[..|jobs| - 1]) + CrawlTrace(ss, fetch(jobs[|jobs| - 1]))
  }

  /** The jobs of a prefix extended by one more event. */
  lemma JobsOfSnoc(events: seq<Event>, i: nat)
    requires i < |events|
    ensures JobsOf(events[..i + 1]) == JobsOf(events[..i]) + (if events[i].Job? then [events[i].target] else [])
  {
    assert events[..i + 1][..i] == events[..i];
  }

  /** Crawling one more job adds its emissions after the others. */
  lemma RunTraceSnoc(ss: seq<FilteredScraper>, fetch: string -> Option<Node>, jobs: seq<string>, j: string)
    ensures RunTrace(ss, fetch, jobs + [j]) == RunTrace(ss, fetch, jobs) + CrawlTrace(ss, fetch(j))
  {
    assert (jobs + [j])[..|jobs|] == jobs;
  }

  /** Every job event before the first stop is among the jobs the worker crawls. */
  lemma JobsBeforeStop(events: seq<Event>, i: nat)
    requires i < StopAt(events) && events[i].Job?
    ensures events[i].target in JobsOf(events[..StopAt(events)])
  {
    JobsOfHas(events[..StopAt(events)], i);
  }

  /** Every job event of a list is among its jobs. */
  lemma {:induction false} JobsOfHas(events: seq<Event>, i: nat)
    requires i < |events| && events[i].Job?
    ensures events[i].target in JobsOf(events)
    decreases |events|
  {
    var last := |events| - 1;
    if i < last {
      assert events[..last][i] == events[i];
      JobsOfHas(events[..last], i);
    }
  }

  class Worker {
    const id: int
    const crawler: Crawler
    /** Whether the worker's own done channel has been closed. */
    var doneClosed: bool

    /** getWorker: a worker for the crawler with its done channel open. */
    constructor (id: int, crawler: Crawler)
      ensures this.id == id && this.crawler == crawler && !doneClosed
    {
      this.id := id;
      this.crawler := crawler;
      doneClosed := false;
    }

    /**
     * hasNoWork: four rounds, each adding one sample of the backlog length
     * to a running count and, while the count is still zero, a second one
     * after waiting. It reports no work exactly when the count ends at zero,
     * which is when the first eight samples are all zero.
     */
    method HasNoWork(samples: nat -> nat) returns (noJobs: bool, used: nat)
      ensures noJobs <==> NoWork(samples)
      ensures 4 <= used <= 8
      ensures noJobs ==> used == 8
      ensures !noJobs ==> !AllZero(samples, used)
    {
      var jobCount: nat := 0;
      used := 0;
      for round := 0 to 4
        invariant round <= used <= 2 * round
        invariant jobCount == 0 <==> AllZero(samples, used)
        invariant jobCount == 0 ==> used == 2 * round
      {
        jobCount := jobCount + samples(used);
        used := used + 1;
        if jobCount == 0 {
          jobCount := jobCount + samples(used);
          used := used + 1;
        }
      }
      noJobs := jobCount == 0;
    }

    /**
     * Run: loops over the events until one of them stops it. A job is
     * crawled and the loop goes on; a closed channel stops it; an empty
     * channel stops it when hasNoWork holds. After the loop the done channel
     * is closed, once. The crawler's root is then what fetching the last job
     * crawled gave, or as it was if no job was crawled. If the events run out first the worker is still
     * running and `finished` is false.
     */
    method Run(events: seq<Event>, fetch: string -> Option<Node>) returns (trace: seq<string>, finished: bool)
      requires !doneClosed
      modifies this, crawler
      ensures finished <==> StopAt(events) < |events|
      ensures doneClosed == finished
      ensures trace == RunTrace(old(crawler.scrapers), fetch, JobsOf(events[..StopAt(events)]))
      ensures crawler.root == LastFetched(JobsOf(events[..StopAt(events)]), fetch, old(crawler.root))
      ensures crawler.scrapers == old(crawler.scrapers) && crawler.ready == old(crawler.ready)
      ensures crawler.doneClosed == old(crawler.doneClosed)
    {
      ghost var ss := crawler.scrapers;
      var done := false;
      var i := 0;
      ghost var jobs: seq<string> := [];
      trace := [];
      while !done && i < |events|
        invariant 0 <= i <= |events|
        invariant i <= StopAt(events)
        invariant done ==> i == StopAt(events) < |events|
        invariant jobs == JobsOf(events[..i])
        invariant trace == RunTrace(ss, fetch, jobs)
        invariant crawler.root == LastFetched(jobs, fetch, old(crawler.root))
        invariant crawler.scrapers == ss && crawler.ready == old(crawler.ready)
        invariant crawler.doneClosed == old(crawler.doneClosed) && !doneClosed
        decreases |events| - i, if done then 0 else 1
      {
        var t, stop := Turn(events[i], fetch);
        if stop {
          done := true;
        } else {
          JobsOfSnoc(events, i);
          if events[i].Job? {
            RunTraceSnoc(ss, fetch, jobs, events[i].target);
            jobs := jobs + [events[i].target];
          }
          trace := trace + t;
          i := i + 1;
        }
      }
      finished := done;
      if done {
        doneClosed := true;
      }
    }

    /**
     * One turn of Run's loop: a job is crawled; a closed channel stops the
     * loop; an empty channel stops it when hasNoWork holds.
     */
    method Turn(e: Event, fetch: string -> Option<Node>) returns (trace: seq<string>, stop: bool)
      modifies crawler
      ensures stop <==> IsStop(e)
      ensures trace == if e.Job? then CrawlTrace(old(crawler.scrapers), fetch(e.target)) else []
      ensures crawler.root == if e.Job? then fetch(e.target) else old(crawler.root)
      ensures crawler.scrapers == old(crawler.scrapers) && crawler.ready == old(crawler.ready)
      ensures crawler.doneClosed == old(crawler.doneClosed)
    {
      trace := [];
      stop := false;
      match e {
        case Job(j) =>
          trace := crawler.CrawlNow(j, fetch);
        case Closed =>
          stop := true;
        case Empty(s) =>
          var noJobs, _ := HasNoWork(s);
          stop := noJobs;
      }
    }

    /** IsDone: whether the worker's done channel is closed. */
    method IsDone() returns (done: bool)
      ensures done == doneClosed
    {
      done := doneClosed;
    }

    /** Die tears down the worker's crawler. */
    method Die()
      requires !crawler.doneClosed
      modifies crawler
      ensures crawler.doneClosed
      ensures crawler.scrapers == old(crawler.scrapers) && crawler.root == old(crawler.root)
      ensures crawler.ready == old(crawler.ready)
    {
      crawler.Die();
    }
  }
}
