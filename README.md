# spider: a Dafny model of the crawler's job-handling core

spider is a small web crawler written in Go. A swarm of crawlers fetches
pages, walks each parsed HTML tree, and sends the `src` and `href` values
it finds back into a job queue. A chain of dispatcher decorators stands in
front of that queue: a preprocessor, then a validator, then a
deduplicator. The repository has two generations of this machinery:

- the older packages `util` and `crawler`, with a polling scheduler built
  on a deque and an array of `Ready` flags;
- the newer packages `messaging` and `swarm`, with a bounded channel queue
  and one worker per crawler.

This project models, in Dafny:

- both generations of the decorators (`UtilQueue`, `MessagingDispatcher`),
  proved against one shared specification of deduplication, validation
  and preprocessing (`DecoratorSpec`);
- the slice-backed deque (`UtilDeque`) and the bounded queue of package
  messaging, seen sequentially (`MessagingQueue`);
- the HTML tree as a datatype (`Html`), and the node filters, scrapers and
  pre-order walk (`Scraping`, `SwarmFilters`, `SwarmScrapers`,
  `CrawlerScrapers`);
- the two crawlers (`CrawlerCrawler`, `SwarmCrawler`), including the
  worker's `hasNoWork` decision and its `Run` state machine;
- the two swarms: the old scheduler's assignment pass (`CrawlerSwarm`),
  and the new swarm's start-up and shutdown order (`SwarmSwarm`);
- the command's own string preprocessors, its fragment validator and the
  order in which `DoCrawl` stacks the decorators (`Spider`).

Whatever the code does outside the program becomes a parameter:

- fetching and parsing a page is a function `fetch` from address to tree.
  In the newer crawler it returns tree-or-nothing, because a failed
  request is tolerated there.
- the URL regular expression is an arbitrary predicate `urlPattern`.
- the wrapped dispatcher of package messaging is a `Recorder`. It logs
  what reaches it and answers each dispatch from a script.
- what a worker sees on its backlog is a sequence of events: a job, the
  channel closed, or nothing available. An empty event carries the
  lengths the backlog reports at the samples that follow.
- which crawlers' done signals fire during a scheduler pass is a flag per
  crawler.

The documented behaviour and the code differ in four places, and the
model follows the code.

- The two deduplicators treat `maxJobs` differently. In package messaging
  only a positive value is a cap, and the default 0 means unlimited. In
  package util every value `>= 0` is a cap, so `SetMaxJobs(0)` drops
  every new item, and the default -1 means unlimited.
- The newer `Worker.hasNoWork` does not simply take one sample per round.
  It runs four rounds. Each round adds one sample of the backlog length to
  a running count and, while the count is still zero, waits and adds a
  second sample. It therefore answers "no work" exactly when the first
  eight samples are all zero. Once it has seen a job, it takes one sample
  per remaining round.
- The deduplicator of package messaging checks for a repeat before it
  checks the cap. After the cap is reached, a repeat therefore still
  answers true, and only new items answer false.
- The comment above that cap check in package messaging says the
  deduplicator closes the dispatcher once it has done more than
  `maxJobs` jobs. The code refuses a new item as soon as the history
  holds exactly `maxJobs` items (`>=`, not `>`), and it closes nothing:
  it only answers false.

## Model

| member | source | states |
|---|---|---|
| Html.Links | src/swarm/scrapers.go:43-47 | the `src`/`href` values of a node, in attribute order; at most one per attribute |
| Html.LinksNone | src/crawler/scrapers.go:31-37 | a node without `src` or `href` attributes yields no address |
| Html.LinksNonEmpty | src/swarm/scrapers.go:43-47 | a node yields some address exactly when one of its attributes is a `src` or `href` |
| Html.PreOrder | src/crawler/crawler.go:49-54 | the pre-order of a tree starts with the node itself, before any child |
| Scraping.ScrapeTraceAppend | src/swarm/crawler.go:51-57 | a scraper added at the end emits after all earlier scrapers, for every node |
| Scraping.ScrapeTraceFiltered | src/swarm/crawler.go:53-55 | scrapers whose filters reject the node emit nothing |
| Scraping.ApplyScrapers | src/crawler/crawler.go:29-35 | the scrape loop emits exactly each scraper's output in list order, skipping scrapers whose filter rejects the node |
| Scraping.WalkTree | src/crawler/crawler.go:48-55 | the recursive closure scrapes exactly the nodes of the tree, in pre-order (node before children, children in sibling order) |
| Scraping.WalkIsPreOrder | src/swarm/crawler.go:75-80 | the recursive walk equals scraping the pre-order node list, one node after another |
| Scraping.WalkAllIsPreOrder | src/swarm/crawler.go:77-79 | walking a list of siblings equals scraping their concatenated pre-orders |
| Scraping.ThenSplits | src/swarm/scrapers.go:20-25 | a scraper built with `ns1.Then(ns2)` emits, on every node, exactly what ns1 and then ns2 emit when added as two scrapers with the same filter (the older package's composition at src/crawler/scrapers.go:13-18 is the same) |
| Scraping.ThenAssociative | src/swarm/scrapers.go:14-19 | a chain `ns1.Then(ns2).Then(ns3)` runs ns1, ns2, ns3 in that order, however it is bracketed |
| Scraping.ScrapeUrls | src/swarm/scrapers.go:42-48 | appends exactly the node's `src`/`href` values, in attribute order, other keys ignored; earlier entries stay as a prefix (the older package's ScrapeUrls at src/crawler/scrapers.go:31-37 is the same) |
| CrawlerScrapers.RecoverUrls | src/crawler/scrapers.go:39-47 | sends every `src`/`href` value in order, with no early stop: exactly what ScrapeUrls appends |
| SwarmScrapers.RecoverPrefix | src/swarm/scrapers.go:53-63 | no more links are dispatched than the node has |
| SwarmScrapers.RecoverPrefixMeaning | src/swarm/scrapers.go:53-63 | what is dispatched is a prefix of the links; every dispatch before the last was accepted; if all are accepted all links go out; otherwise the last one sent was refused |
| SwarmScrapers.RecoverPrefixStops | src/swarm/scrapers.go:57-59 | once a dispatch answers false, no later link of the node is dispatched |
| SwarmScrapers.RecoverStopsAt | src/swarm/scrapers.go:55-61 | a refusal at attribute i ends the dispatching with the links up to attribute i |
| SwarmScrapers.RecoverUrls | src/swarm/scrapers.go:53-63 | the dispatcher receives exactly RecoverPrefix of the node's links under its answers, and is not closed |
| SwarmFilters.HasKey | src/swarm/filters.go:32-37 | the early-return search finds a key exactly when some attribute has it |
| SwarmFilters.HasAttr | src/swarm/filters.go:30-39 | holds exactly when some attribute of the node has the given key |
| SwarmFilters.HasAttrs | src/swarm/filters.go:41-47 | the Or-fold from None holds on a node exactly when some attribute key of the node is among the included keys; with no keys it rejects every node |
| SwarmFilters.HasAttrsKeysOnly | src/swarm/filters.go:41-47 | the filter depends only on which keys are included: any order or repetition of the same keys gives the same answers |
| SwarmFilters.FilterLaws | src/swarm/filters.go:10-28 | `And` and `Or` are commutative and associative, `All` is the unit of `And` and `None` the unit of `Or`, `None` absorbs `And` and `All` absorbs `Or`, and each distributes over the other |
| SwarmFilters.LinkFilter | main.go:116 | the spawner's `HasLinks`, `HasAttrs("src", "href")` (here package swarm's HasAttrs), accepts a node exactly when the node yields some link |
| SwarmFilters.LeafPreOrder | src/swarm/filters.go:49-51 | a node is a leaf exactly when its pre-order walk visits it alone |
| SwarmFilters.LeafLinkFilter | main.go:116-119 | the spawner's second filter, `HasLinks.And(IsLeafNode)` (here package swarm's), accepts a node exactly when it yields some link and the walk visits nothing below it |
| DecoratorSpec.AdmitAllExtends | src/messaging/dispatcher.go:41-61 | the deduplicator's history only grows: the old history stays a prefix |
| DecoratorSpec.AdmitAllNoDuplicates | src/messaging/dispatcher.go:43-57 | a history without repeats never acquires one |
| DecoratorSpec.AdmitAllWithinCap | src/util/queue.go:37-40 | a history within a cap of m stays within m |
| DecoratorSpec.AdmitAllFull | src/messaging/dispatcher.go:51-53 | once the history has reached the cap it never changes again |
| DecoratorSpec.AdmitAllFrom | src/messaging/dispatcher.go:57 | the history holds only earlier entries and dispatched items |
| DecoratorSpec.AdmitAllUncapped | src/messaging/dispatcher.go:51-57 | without a cap every dispatched item ends up in the history |
| DecoratorSpec.ComposeAppend | src/messaging/dispatcher.go:130-133 | running a concatenated preprocessor chain is running the first part, then the second |
| UtilQueue.CapDefaults | src/util/queue.go:18-24 | the default maxJobs of -1 is no cap, and a cap of 0 drops every new item |
| UtilQueue.DeDuplicatingDispatcher.WithDeDuplication | src/util/queue.go:18-24 | empty history, maxJobs -1, wraps the given dispatcher |
| UtilQueue.DeDuplicatingDispatcher.SetMaxJobs | src/util/queue.go:26-29 | sets maxJobs, keeps the history, returns the same dispatcher |
| UtilQueue.DeDuplicatingDispatcher.Dispatch | src/util/queue.go:31-42 | a repeat leaves the history as it was; a new item at a cap `>= 0` is dropped; any other item is appended and forwarded exactly once |
| UtilQueue.DeDuplicatingDispatcher.ReportDispatched | src/util/queue.go:44-46 | the history in first-acceptance order, without repeats |
| UtilQueue.ValidDispatcher.WithValidation | src/util/queue.go:55-60 | wraps the dispatcher with the validators in order |
| UtilQueue.ValidDispatcher.Dispatch | src/util/queue.go:62-70 | forwards the item unchanged exactly when every validator accepts it, and otherwise forwards nothing |
| UtilQueue.PreProcessingDispatcher.WithPreProcessing | src/util/queue.go:79-87 | wraps the dispatcher with the preprocessors in order |
| UtilQueue.PreProcessingDispatcher.Dispatch | src/util/queue.go:89-95 | forwards the first-to-last composition of the preprocessors applied to the item |
| UtilDeque.Deque.constructor | src/util/deque.go:13-15 | a new deque has no members |
| UtilDeque.Deque.Insert | src/util/deque.go:17-22 | appends at the back; earlier members keep their places |
| UtilDeque.Deque.IsEmpty | src/util/deque.go:24-26 | true exactly when there are no members |
| UtilDeque.Deque.TakeOne | src/util/deque.go:28-36 | on a non-empty deque, returns the front member and leaves the old tail in order |
| UtilDeque.FifoRoundTrip | src/util/deque.go:17-36 | inserting a list into a new deque and taking as many times yields the list in order |
| MessagingQueue.Queue.NewQ | src/messaging/queue.go:19-26 | empty buffer of the given capacity, open |
| MessagingQueue.Queue.Dispatch | src/messaging/queue.go:57-61 | always answers true; the item joins the back of the buffer |
| MessagingQueue.Queue.Close | src/messaging/queue.go:65-69 | closes the intake if it is open; a second Close changes nothing; buffered items are kept |
| MessagingQueue.Queue.Length | src/messaging/queue.go:72-74 | the number of buffered items, never more than the capacity |
| MessagingQueue.Queue.Receive | src/messaging/queue.go:38-43 | delivers the front item while one is buffered, even after Close; reports closed only once the buffer is drained |
| MessagingQueue.DrainAfterClose | src/messaging/queue.go:31-43 | dispatching items, closing, then receiving until closed yields exactly the items, in order, each once |
| MessagingDispatcher.DefaultUnlimited | src/messaging/dispatcher.go:25-31 | with the default maxJobs of 0 every new item is accepted into the history |
| MessagingDispatcher.DeDuplicatingDispatcher.WithDeDuplication | src/messaging/dispatcher.go:25-31 | empty history, maxJobs 0, wraps the given dispatcher |
| MessagingDispatcher.DeDuplicatingDispatcher.SetMaxJobs | src/messaging/dispatcher.go:35-38 | sets maxJobs, keeps the history, returns the same dispatcher |
| MessagingDispatcher.DeDuplicatingDispatcher.Dispatch | src/messaging/dispatcher.go:41-61 | a repeat answers true and forwards nothing; a new item at a positive cap answers false; otherwise the item is recorded, forwarded once, and the wrapped answer returned even when false |
| MessagingDispatcher.DeDuplicatingDispatcher.Close | src/messaging/dispatcher.go:64-66 | delegates exactly once to the wrapped dispatcher |
| MessagingDispatcher.DeDuplicatingDispatcher.ReportDispatched | src/messaging/dispatcher.go:70-72 | the history in first-acceptance order, without repeats |
| MessagingDispatcher.ValidDispatcher.WithValidation | src/messaging/dispatcher.go:85-90 | wraps the dispatcher with the validators in order |
| MessagingDispatcher.ValidDispatcher.Dispatch | src/messaging/dispatcher.go:95-103 | a rejected job answers true and is not forwarded; otherwise it is forwarded unchanged and the wrapped answer returned |
| MessagingDispatcher.ValidDispatcher.Close | src/messaging/dispatcher.go:105-107 | delegates exactly once to the wrapped dispatcher |
| MessagingDispatcher.PreProcessingDispatcher.WithPreProcessing | src/messaging/dispatcher.go:121-128 | wraps the dispatcher with the preprocessors in order |
| MessagingDispatcher.PreProcessingDispatcher.Dispatch | src/messaging/dispatcher.go:130-136 | forwards the first-to-last composition of the preprocessors and returns the wrapped answer |
| MessagingDispatcher.PreProcessingDispatcher.Close | src/messaging/dispatcher.go:138-140 | delegates exactly once to the wrapped dispatcher |
| CrawlerCrawler.Crawler.NewCrawler | src/crawler/crawler.go:21-27 | no scrapers, no root, ready |
| CrawlerCrawler.Crawler.Scrape | src/crawler/crawler.go:29-35 | emits the filtered scrapers' output for the node, in list order |
| CrawlerCrawler.Crawler.AddScraper | src/crawler/crawler.go:37-43 | appends one (filter, scraper) pair at the end, changes nothing else, returns the same crawler |
| CrawlerCrawler.Crawler.GetNodeTree | src/crawler/crawler.go:70-79 | returns the fetched tree and stores it as the root |
| CrawlerCrawler.Crawler.CrawlNow | src/crawler/crawler.go:47-56 | the root becomes the fetched tree, and every node of it is scraped in pre-order |
| CrawlerCrawler.Crawler.Crawl | src/crawler/crawler.go:62-68 | hands the target to a background crawl, recorded in order; the Ready flag is untouched |
| SwarmCrawler.Crawler.NewCrawler | src/swarm/crawler.go:40-46 | no scrapers, no root, ready, done channel open |
| SwarmCrawler.Crawler.Scrape | src/swarm/crawler.go:51-57 | emits the filtered scrapers' output for the node, in list order |
| SwarmCrawler.Crawler.AddScraper | src/swarm/crawler.go:61-67 | appends one (filter, scraper) pair at the end, changes nothing else, returns the same crawler |
| SwarmCrawler.Crawler.PopulateNodeTree | src/swarm/crawler.go:101-113 | returns the fetch result; on success it becomes the root, on failure the root is kept |
| SwarmCrawler.Crawler.CrawlNow | src/swarm/crawler.go:72-85 | the root is cleared first; after a failed fetch nothing is scraped and the root stays empty; otherwise the root is the tree and every node is scraped in pre-order |
| SwarmCrawler.Crawler.Die | src/swarm/crawler.go:116-118 | closes the done channel, which must still be open |
| SwarmCrawler.AllZeroMeaning | src/swarm/crawler.go:179-182 | the recursive test is the same as all of the first n samples being zero |
| SwarmCrawler.StopAt | src/swarm/crawler.go:146-164 | the index of the first closed event or empty-with-no-work event: no earlier event stops the loop |
| SwarmCrawler.JobsBeforeStop | src/swarm/crawler.go:150-155 | every job received before the loop stops is crawled |
| SwarmCrawler.Worker.constructor | src/swarm/crawler.go:121-123 | a worker for the crawler, with its own done channel open |
| SwarmCrawler.Worker.HasNoWork | src/swarm/crawler.go:167-185 | answers no work exactly when the first eight samples are zero; takes one sample in each of the four rounds plus a second in each round whose first sample leaves the running count zero, so between four and eight in all and eight whenever it answers no work; when it answers that there is work, the samples it took are not all zero |
| SwarmCrawler.Worker.Turn | src/swarm/crawler.go:149-161 | one turn of the loop: a job is crawled with the crawler's scrapers, its fetch result becomes the crawler's root, and the loop goes on; a closed channel stops it; an empty one stops it exactly when hasNoWork holds; other events leave the root as it was |
| SwarmCrawler.Worker.Run | src/swarm/crawler.go:146-164 | crawls the jobs before the first stopping event, in order; finishes exactly when a stopping event occurs, and then closes the done channel once; leaves the crawler's root as the fetch result of the last job crawled, or unchanged if there was none |
| SwarmCrawler.Worker.IsDone | src/swarm/crawler.go:188-190 | whether the done channel is closed |
| SwarmCrawler.Worker.Die | src/swarm/crawler.go:198-200 | tears down the worker's crawler, closing its done channel |
| SwarmSwarm.SpawnCrawler | src/swarm/swarm.go:26-28 | one call of the spawner: a new crawler with the spawner's scrapers, ready, no root |
| SwarmSwarm.CountNotReady | src/swarm/swarm.go:60-71 | at most the number of crawlers, and zero exactly when all are ready |
| SwarmSwarm.CountDone | src/swarm/swarm.go:51-58 | at most the number of workers, and equal to it exactly when all are done |
| SwarmSwarm.Starts | src/swarm/swarm.go:39-42 | one start per worker, in index order |
| SwarmSwarm.TeardownSteps | src/swarm/swarm.go:44-47 | for each worker in index order, an await at position 2k followed by its Die; no teardown step closes the dispatcher |
| SwarmSwarm.ShutdownOrderSteps | src/swarm/swarm.go:38-49 | every worker starts, then each is awaited and torn down in index order, and the dispatcher is closed once, last |
| SwarmSwarm.FirstBlocked | src/swarm/swarm.go:44-47 | the first worker whose events never stop it: every earlier worker finishes |
| SwarmSwarm.FirstBlockedAt | src/swarm/swarm.go:44-46 | up to the first blocked worker, a worker finishes exactly when it is before it |
| SwarmSwarm.Swarm.NewSwarm | src/swarm/swarm.go:22-36 | five distinct new crawlers, each made by the spawner; no jobs |
| SwarmSwarm.Swarm.CountRunning | src/swarm/swarm.go:60-71 | the number of crawlers not ready, at most five |
| SwarmSwarm.Swarm.WorkersDone | src/swarm/swarm.go:51-58 | the number of workers whose done channel is closed, at most five |
| SwarmSwarm.Swarm.SetIncoming | src/swarm/swarm.go:74-77 | stores the backlog and returns the same swarm |
| SwarmSwarm.Swarm.SetDispatcher | src/swarm/swarm.go:79-85 | stores the dispatcher and dispatches each seed job once, in order, ignoring the answers |
| SwarmSwarm.Swarm.AwaitAndDie | src/swarm/swarm.go:45-46 | runs worker i and, exactly when it finishes, closes its done channel and tears down its crawler; returns what its scrapers emitted over the jobs it crawled; its crawler's root is the fetch result of the last of them; no other worker or crawler changes |
| SwarmSwarm.Swarm.StartWorkers | src/swarm/swarm.go:39-42 | one worker per crawler, in index order, each with its done channel open |
| SwarmSwarm.Swarm.AwaitAll | src/swarm/swarm.go:44-47 | awaits and tears down each worker in index order until one never finishes, and returns what the awaited workers' scrapers emitted, in worker order |
| SwarmSwarm.Swarm.Spawn | src/swarm/swarm.go:38-49 | starts every worker, awaits and tears down each in index order until one never finishes, and closes the dispatcher once only if all finished; the full order is then the shutdown order; returns what each awaited worker's scrapers emitted over the jobs it crawled, in worker order, and changes no crawler's scrapers |
| CrawlerSwarm.SpawnCrawler | src/crawler/swarm.go:26-28 | one call of the spawner: a new crawler with the spawner's scrapers, ready |
| CrawlerSwarm.CountFalse | src/crawler/swarm.go:93-102 | at most the number of flags, and zero exactly when every flag is set |
| CrawlerSwarm.Assign | src/crawler/swarm.go:67-81 | the pass over the first n crawlers gives one job or none to each, and one new flag to each |
| CrawlerSwarm.StepRule | src/crawler/swarm.go:68-80 | one crawler's visit adds one entry to what was handed out; it moves the front job, if it takes one, from the deque to the end of that list; it takes one exactly when it is ready after its signal and jobs are left; its new flag is its readiness, cleared when it takes a job only under the correction |
| CrawlerSwarm.AssignVisit | src/crawler/swarm.go:67-81 | the visit of crawler i extends the visits before it, and the job and flag it decides are the ones the full pass records for i |
| CrawlerSwarm.AssignStable | src/crawler/swarm.go:67-81 | visiting later crawlers does not change what earlier ones were given, or their flags |
| CrawlerSwarm.AssignConserves | src/crawler/swarm.go:78-79 | the jobs handed out, in crawler order, followed by the jobs left, are exactly the deque: none lost, none duplicated |
| CrawlerSwarm.AssignGiven | src/crawler/swarm.go:68-80 | crawler i gets a job exactly when it is ready after its signal and jobs remain after those given to crawlers 0..i-1; the job is the next one in deque order |
| CrawlerSwarm.AssignReady | src/crawler/swarm.go:68-74 | a crawler whose signal fired becomes ready; as written, a ready crawler stays ready after taking a job; with the correction, it stops being ready |
| CrawlerSwarm.AssignAllReady | src/crawler/swarm.go:67-81 | with every crawler ready, the first jobs go one each to the crawlers in index order |
| CrawlerSwarm.AsWrittenReturnsWhileCrawling | src/crawler/swarm.go:86-90 | as written, after the seed is handed out every flag is still set and the deque is empty, so Spawn's test to return holds while the crawl runs |
| CrawlerSwarm.CorrectedTracksCrawls | src/crawler/swarm.go:58-63 | with the correction, a crawler is not ready exactly when it was just given a job or its earlier job is still running, so Spawn returns only when no crawl is running |
| CrawlerSwarm.CorrectedWaitsForSeed | src/crawler/swarm.go:58-63 | with the correction, the seed's crawl keeps the next pass from returning |
| CrawlerSwarm.Swarm.NewSwarm | src/crawler/swarm.go:22-36 | ten distinct new crawlers, each made by the spawner; an empty job deque |
| CrawlerSwarm.Swarm.SeedJobs | src/crawler/swarm.go:112-117 | the jobs join the back of the deque in argument order; returns the same swarm |
| CrawlerSwarm.Swarm.CountRunning | src/crawler/swarm.go:93-102 | the number of crawlers not ready, at most ten |
| CrawlerSwarm.Swarm.RefreshCrawlerAsWritten | src/crawler/swarm.go:86-90 | removes exactly the front job and hands it to the crawler; no Ready flag changes |
| CrawlerSwarm.Swarm.RefreshCrawler | src/crawler/swarm.go:86-90 | the corrected refreshCrawler: the same hand-out, and the crawler is then not ready |
| CrawlerSwarm.Swarm.Pass | src/crawler/swarm.go:41-81 | one turn of Spawn's loop, as written (`marksBusy` false) or corrected (true): polled jobs join the deque; it returns exactly when the deque is empty and no crawler is running; otherwise the crawlers' flags and jobs are those Assign gives under the same `marksBusy` |
| CrawlerSwarm.Swarm.Poll | src/crawler/swarm.go:47-56 | every waiting job joins the back of the deque, in order |
| CrawlerSwarm.Swarm.AssignPass | src/crawler/swarm.go:67-81 | the loop over the crawlers, as written or corrected, leaves the deque, flags and started jobs that Assign describes under the same `marksBusy`, and changes no scrapers or roots |
| CrawlerSwarm.Swarm.VisitCrawler | src/crawler/swarm.go:68-80 | one crawler's turn, as Step describes it: marked ready if its signal fired, then given the front job if it is ready and one is left, through refreshCrawler as written or corrected |
| Spider.LeadingCut | main.go:76 | the number of leading '.' or '/' characters: all of them are in the cutset, and the next character is not |
| Spider.TrimLeading | main.go:75-77 | the result is a suffix of the item; every removed character is '.' or '/'; the result does not start with either |
| Spider.TrimLeadingIdempotent | main.go:75-77 | trimming twice is trimming once |
| Spider.TrailingSlashes | main.go:82 | the number of trailing '/' characters: all of them are slashes, and the one before them is not |
| Spider.TrimTrailingSlash | main.go:82 | the result is a prefix of the seed; every removed character is '/'; the result does not end in '/' |
| Spider.RemoveAll | main.go:83 | splitting on "www." and joining with nothing never lengthens the target |
| Spider.RemoveAllNone | main.go:83 | where "www." does not occur, the target is unchanged |
| Spider.Relativise | main.go:78-88 | an item is returned unchanged exactly when it starts with "http", the target or its www-less alternative; any other item becomes target + "/" + item; either way the result is absolute or rooted at the target or its alternative, and ends with the item |
| Spider.RelativiseIdempotent | main.go:78-88 | relativising an already relativised item changes nothing |
| Spider.NoFragmentRelativise | main.go:78-98 | for a seed without '#', the relativised item has no '#' exactly when the item has none, so the first validator judges the link, not the prefix added to it |
| Spider.PreProcessorsOrder | main.go:72-90 | the two preprocessors compose in the order they are installed: trim first, then relativise |
| Spider.ValidatorsMeaning | main.go:93-104 | the two validators together accept exactly the items without '#' that match the URL pattern |
| Spider.Prepare | main.go:49-54 | what the validating layer passes to deduplication for one item: the item trimmed, then relativised, exactly when that has no '#' and matches the pattern, and nothing otherwise |
| Spider.PreparedFrom | main.go:93-104 | every item that reaches deduplication has no '#', matches the pattern, and is some dispatched item trimmed and relativised |
| Spider.ChainGuarantees | main.go:49-54 | at most fifty jobs reach the queue, none twice, each without '#', matching the pattern, and absolute or rooted at the target |
| Spider.DispatchThroughChain | main.go:49-54 | one dispatch through the stack leaves the deduplicator's history, and what reached the queue, as deduplication of the prepared item gives |
| Spider.DispatchAllThroughChain | main.go:49-54 | a run of dispatches leaves the history that deduplicating the prepared items in order gives |
| Spider.DoCrawl | main.go:48-64 | the deduplicator starts empty with a cap of fifty; the swarm's deque holds the seed alone, put there without going through deduplication |
| Spider.SeedDispatchedAgain | main.go:57-60 | because the seed never enters the history, a link back to an absolute, valid seed is dispatched again |

## Left out

- Goroutines and channels. The queue's receive and deliver goroutines, `util.Split`, `IsClosed`, `AwaitClosure`, `Fork` and `ForkedBacklog`, and the goroutines that `Crawl` and `Work` launch are all left out. The model runs everything sequentially. The old package's channel-backed `Queue` in `src/util/queue.go` is replaced by a `Sink` that records what reaches it.
- Sleeps and polling intervals. Time is abstracted as event sequences and backlog-length samples.
- Network fetches and HTML parsing. `fetch` is a parameter, and `log.Fatal` on a parse error is not modelled.
- Rendering and printing: `Dump`, `DumpHtml`, `CleanUp`'s printing, `RegexpTesting` and all logging.
- The URL regular expression. `urlPattern` is an arbitrary predicate.
- Command-line parsing.
- `src/reporting/domains.go`, which is built on `url.Parse`, JSON and a goroutine.
- The deduplicator has no mutex. Dispatch is modelled sequentially, and thread safety is not claimed.
- main.go's `Spawner.Spawn` is not modelled. It calls `crawler.HasAttrs` and a `crawler.RecoverUrls(dispatcher)` that do not match the older package's signatures. `DoCrawl` takes the spawner as a parameter instead.
- `DoCrawl` builds the decorator objects in a stack. Each modelled decorator wraps a `Sink`, so the stack is modelled as a function of the item (`Spider.Prepare`) in front of a real deduplicator object.
- `SetIncoming` of the older scheduler is not modelled; a pass receives its polled jobs as a parameter instead. Neither is the older crawler's `Die`, which nothing in that package calls.
- `Spawn` of the older scheduler is modelled one pass at a time (`CrawlerSwarm.Swarm.Pass`), not as the unbounded loop.
- SwarmSwarm.Swarm.Spawn: the workers run one after another, each on its own event list, instead of concurrently. `AwaitCompletion` is only a step in the returned order. A worker that never finishes blocks the teardown, and the trace then stops at that worker.
- SwarmSwarm.Swarm.Spawn: requires a dispatcher. NewSwarm leaves it nil, and Spawn closes it unconditionally at the end, so without an earlier SetDispatcher the final Close panics on the nil interface. The model admits only swarms whose dispatcher has been set.
- SwarmSwarm.Swarm.Spawn: what the workers' scrapers emit is returned, not dispatched. In the code, the scrapers built by RecoverUrls send their links to a dispatcher, and those links can come back to the workers through the backlog. In the model, each worker's backlog events are fixed before Spawn starts, so discoveries never feed back during Spawn, and the dispatcher gets nothing but the close.
- MessagingQueue.Queue.Dispatch: a send into a closed intake panics, and the model admits only calls that find the intake open. The model also requires room in the buffer, which is stricter than the code. The receive goroutine and the deliver goroutine each hold one item in flight, so a queue made by NewQ(size) takes size + 2 dispatches before a send blocks with no consumer, and `Length` counts only the channel buffer, not those two items. The model has no in-flight items: its buffer is everything dispatched and not yet received, at most `size` of it.
- SwarmCrawler.Crawler.Die: closing the done channel twice panics; the model requires that it is still open.
- UtilDeque.Deque.TakeOne: it indexes the first member, so it requires a non-empty deque, as the source does.
- A Spawner is modelled by the scrapers it adds to each new crawler.

## Findings

| source | as written | input that shows it | evidently intended | confidence | as-written member | corrected member |
|---|---|---|---|---|---|---|
| src/crawler/swarm.go:86-90 | `refreshCrawler` hands the job to a crawler but never clears its `Ready` flag, and nothing else clears it. So `countRunning` is always 0, and `Spawn` returns as soon as the deque is empty after polling, even while crawls are still running. | Ten ready crawlers and only the seed in the deque. The first pass gives the seed to crawler 0, and every flag stays set. The next pass, with nothing new on the backlog, finds the deque empty and `countRunning() == 0`, so it returns while the seed's crawl is running. | A crawler that takes a job is marked not ready until its done signal fires. Then `Spawn` returns only once no crawl is running. | not executed | CrawlerSwarm.AsWrittenReturnsWhileCrawling | CrawlerSwarm.CorrectedTracksCrawls |
