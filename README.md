# Web crawler model

A Dafny model of the crawl phase of two small Python web crawlers:

- `pagerank_webcrawler.py` crawls depth-first from a root URL. It keeps a map
  `webpages` from URL to an entry with an inbound-link count and an outbound-link
  list, and a list `queue` used as a stack. It crawls one URL per step and stops
  when the queue is empty or the map holds `MAX_LINKS + 1` entries.
- `basic_webcrawler.py` keeps a list `urls` used as a stack and a set `url_set` of
  admitted URLs. It pops up to `MAX_THREADS` URLs per batch and crawls them, each
  task filtering its links against `url_set` as it was when the batch started. It
  then appends the flattened results to `urls` and `url_set` until the set holds
  `MAX_LINKS` URLs.

The network, the HTML parser, the URL validator and the robots.txt parser are one
value of type `Web.Oracles`:

- `hrefs(u)`: the `href` of every anchor of page `u`, in document order, `None`
  for an anchor without one.
- `valid(s)`: the validator's verdict on `s`.
- `robots(u)`: `None` when the robots.txt request for `u` raised `HTTPError`,
  otherwise `Some(b)`, where `b` is whether the parsed rules allow `u`.

The root URL, `MAX_LINKS` and `MAX_THREADS` are parameters.

Files:

- `web.dfy` (module `Web`): shared vocabulary.
  - URLs, `Option`, the oracles.
  - Sequence facts.
  - `Handled`, which counts how many links an admission loop takes before the
    budget stops it.
- `pagerank_crawler.dfy`:
  - Module `PagerankCrawler` holds the pure specification of one step:
    `CrawlResult`, `Admit`, `StepResult`. It also holds the loop invariant `Inv`
    and the methods the step is built from: `WebCrawl`, `AdmitLinks`,
    `CrawlNext`.
  - Module `PagerankMain` holds the class `Crawler`, whose fields are `webpages`
    and `queue`. Its `Step` and `Run` are main's while loop.
- `basic_crawler.dfy`:
  - Module `BasicCrawler` holds the specification of one batch: `CrawlResult`,
    `TakeLast`, `BatchResults`, `AdmitBasic`, `BatchResult`. It also holds the
    methods `WebCrawl`, `PopBatch`, `CrawlBatch`, `AdmitLinks` and `RunBatch`.
  - Module `BasicMain` holds the class `Crawler`, whose fields are `urls` and
    `urlSet`. Its `Batch` and `Run` are main's while loop.

Each inner loop is proved equal to a pure function. The properties are
proved about those functions, and the class methods keep an invariant.

Where this model differs from how the crawlers are often described, it follows
the code:

- **Dangling edges (ranking crawler).** A crawled page's outbound list is
  recorded whole. Links left over once the map is full never become keys, so the
  graph can have dangling edges. `PagerankCrawler.FullMapLeavesDanglingEdge`
  shows this on the first step from the initial state with MAX_LINKS = 1.
- **A URL queued twice (basic crawler).** Two tasks of one batch can return the
  same fresh URL, and admission appends it twice.
  `BasicCrawler.SameBatchQueuesTwice` shows this on the second batch from the
  initial state.
- **The root (basic crawler).** The root is not in `url_set` at the start, so a
  link back to it is admitted and crawled again. `BasicMain.Crawler.Valid` allows for this:
  each queued URL is the root or in `url_set`.
- **A failed robots request.** In the basic crawler the page is crawled as if
  there were no rules. In the ranking crawler the page yields no links, but as
  written the run aborts when a robots request succeeds after an earlier one
  failed (see Findings). On every other run each step sees its own URL's answer,
  which is what `PagerankCrawler.CrawlNext` computes.

## Model

| member | source | states |
|---|---|---|
| Web.Handled | basic_webcrawler.py:88-92 | The number of links an admission loop handles is at most the number of links offered. |
| Web.HandledStopsWhenFull | basic_webcrawler.py:88-90 | Admission stops before the end of the links only when the set of known URLs already holds the cap. |
| Web.HandledHadRoom | pagerank_webcrawler.py:94-96 | Before each handled link, the set of known URLs was below the cap. |
| PagerankCrawler.IsValidUrl | pagerank_webcrawler.py:30-34 | A missing or empty href is rejected; an accepted href is one the validator accepts. |
| PagerankCrawler.ValidLinks | pagerank_webcrawler.py:49-54 | Definition: the hrefs that pass is_valid_url, in document order, duplicates kept; characterised by `ValidLinksSelects`. |
| PagerankCrawler.CrawlResult | pagerank_webcrawler.py:41-56 | Definition: no links unless the robots answer is present and allows the URL, otherwise `ValidLinks` of the page's hrefs; `WebCrawl` is proved equal to it. |
| PagerankCrawler.Admit | pagerank_webcrawler.py:93-107 | Definition of the admission loop: stop once the map holds the cap, queue and enter a new URL with one inbound link, or add one inbound link to a known one; characterised by `AdmitQueuesNewKeys`, `AdmitKey`, `AdmitCountsKnown`, `AdmitCountsNew`. |
| PagerankCrawler.StepResult | pagerank_webcrawler.py:79-107 | Definition of one iteration: pop the last queued URL, record its `CrawlResult` as its outbound list, admit that result; `StepKeepsInv` proves it keeps the invariant. |
| PagerankCrawler.ValidLinksSelects | pagerank_webcrawler.py:49-54 | The kept links are exactly the valid hrefs, in document order, with duplicates kept: each comes from a valid position, positions increase, and no valid position is missed. |
| PagerankCrawler.WebCrawl | pagerank_webcrawler.py:37-56 | No robot, or a robot that disallows the URL, gives no links; otherwise the valid hrefs of the page, in order. |
| PagerankCrawler.AdmitQueuesNewKeys | pagerank_webcrawler.py:93-104 | Admission keeps the old queue as a prefix and appends only URLs that were not keys. Every new key is appended. The map grows by the number appended and never passes the cap. A duplicate-free queue stays duplicate-free. |
| PagerankCrawler.AdmitKey | pagerank_webcrawler.py:93-104 | A URL is a key after admission exactly when it was a key before or is among the links handled before the cap stopped the loop. |
| PagerankCrawler.AdmitCountsKnown | pagerank_webcrawler.py:105-107 | A known page keeps its outbound links and gains one inbound link per handled occurrence of its URL. |
| PagerankCrawler.AdmitCountsNew | pagerank_webcrawler.py:98-107 | A page that admission creates has no outbound links, and its inbound count equals its number of handled occurrences. |
| PagerankCrawler.AdmitKeepsEntries | pagerank_webcrawler.py:93-107 | Admission never changes an outbound list or lowers an inbound count. A created page has no outbound links and at least one inbound link. |
| PagerankCrawler.FullMapLeavesDanglingEdge | pagerank_webcrawler.py:78-107 | With MAX_LINKS = 1 and a root linking to "a" then "b", the first step from the initial state records both as the root's outbound list, admits "a" and fills the map, so "b" never becomes a key. |
| PagerankCrawler.RobotGatesAsWritten | pagerank_webcrawler.py:82-86 | As written, the robots answers the loop uses: when the run survives, there is one answer per step. |
| PagerankCrawler.RobotFailureAbortsLaterStep | pagerank_webcrawler.py:82-86 | As written, the run aborts exactly when a robots request succeeds after an earlier one failed. Otherwise each step sees its own URL's answer. |
| PagerankCrawler.RobotCrashExample | pagerank_webcrawler.py:82-86 | The answers allow, fail, allow abort the run at the third step. |
| PagerankCrawler.AdmitLinks | pagerank_webcrawler.py:93-107 | The for loop over the crawled links computes exactly `Admit`. |
| PagerankCrawler.CrawlNext | pagerank_webcrawler.py:79-107 | It returns the last queued URL, and the new map and queue are exactly `StepResult`: the crawl result, made with that URL's own robots answer, is recorded as the URL's outbound list and then admitted. |
| PagerankCrawler.StepKeepsFrontier | pagerank_webcrawler.py:78-104 | Popping and admitting keep the frontier invariant. The root is a key and there are at most MAX_LINKS + 1 entries. The keys are exactly the queued and the crawled URLs. Nothing is queued or crawled twice, and nothing is both. |
| PagerankCrawler.PopKeepsFrontier | pagerank_webcrawler.py:79-91 | Moving the popped URL from the queue to the crawled URLs keeps the frontier invariant. |
| PagerankCrawler.AdmitKeepsFrontier | pagerank_webcrawler.py:93-104 | Admission keeps the frontier invariant. |
| PagerankCrawler.QueuedNotCrawled | pagerank_webcrawler.py:98-100 | Admission never queues an URL that was already crawled. |
| PagerankCrawler.StepKeepsEntries | pagerank_webcrawler.py:79-107 | One step keeps the entry invariant. Every entry has an inbound link. Queued pages have no outbound links. A crawled page's outbound list is its crawl result. |
| PagerankCrawler.AdmitKeepsInvEntries | pagerank_webcrawler.py:93-107 | Admission keeps the entry invariant. |
| PagerankCrawler.PopEntries | pagerank_webcrawler.py:79-91 | Recording the popped page's crawl result keeps the other queued pages pending, and gives each crawled page its own crawl result. |
| PagerankCrawler.AdmitQueuedPending | pagerank_webcrawler.py:98-104 | Every URL left queued after admission is a key with no outbound links. |
| PagerankCrawler.LastQueuedIsKey | pagerank_webcrawler.py:79-91 | Under the invariant, the URL a step pops has an entry, so line 91's update cannot fail. |
| PagerankCrawler.InitInv | pagerank_webcrawler.py:63-73 | The initial state meets the invariant. |
| PagerankCrawler.CrawlStep | pagerank_webcrawler.py:79-107 | Under the invariant, one iteration pops the last queued URL, which has an entry. The new state is exactly `StepResult`, and the invariant holds with that URL crawled. |
| PagerankCrawler.StepKeepsInv | pagerank_webcrawler.py:78-107 | One loop iteration keeps the invariant. |
| PagerankMain.Crawler.constructor | pagerank_webcrawler.py:63-73 | The root is the one entry, with one inbound link and no outbound links, and the one queued URL; the invariant holds. |
| PagerankMain.Crawler.Step | pagerank_webcrawler.py:78-107 | One iteration pops the last queued URL and adds it to the crawled URLs. The new state is `StepResult` of the old one, and the invariant is kept. |
| PagerankMain.Crawler.Run | pagerank_webcrawler.py:76-107 | The loop ends with an empty queue or with MAX_LINKS + 1 entries, keeps the invariant, and only extends the crawled URLs. |
| BasicCrawler.IsValidUrl | basic_webcrawler.py:20-25 | A missing or empty href, or one already in url_set, is rejected. An accepted href is one the validator accepts. |
| BasicCrawler.FreshLinks | basic_webcrawler.py:49-53 | Definition: each href that passes is_valid_url and is not yet in the result, in document order; characterised by `FreshLinksExact`, `FreshLinksDistinct`, `FreshLinksOrdered`. |
| BasicCrawler.CrawlResult | basic_webcrawler.py:33-55 | Definition: no links when the robots answer disallows the URL, otherwise (also with no robot) `FreshLinks` of the page's hrefs; `WebCrawl` is proved equal to it. |
| BasicCrawler.BatchResults | basic_webcrawler.py:79-83 | Definition: the popped pages' crawl results against one url_set, flattened in submission order; characterised by `BatchResultsFrom`, `BatchResultsFresh`. |
| BasicCrawler.AdmitBasic | basic_webcrawler.py:87-92 | Definition of the admission loop: stop once url_set holds MAX_LINKS URLs, otherwise append the link to `urls` and add it to url_set; characterised by `AdmitBasicTakesHandled`, `AdmitBasicBounded`, `AdmitBasicGrows`. |
| BasicCrawler.BatchResult | basic_webcrawler.py:72-92 | Definition of one iteration: pop `TakeLast(urls, MAX_THREADS)`, crawl the batch, admit the flattened results; `BatchKeepsInv` proves what a batch keeps. |
| BasicCrawler.FreshLinksDistinct | basic_webcrawler.py:49-53 | A task's result holds no URL twice. |
| BasicCrawler.FreshLinksExact | basic_webcrawler.py:49-53 | A URL is in a task's result exactly when it is among the hrefs and passes is_valid_url. |
| BasicCrawler.FreshLinksOrdered | basic_webcrawler.py:49-53 | A task's result is in first-occurrence order of the hrefs. |
| BasicCrawler.WebCrawl | basic_webcrawler.py:28-55 | A robots answer that disallows the URL gives no links. Otherwise, including when there is no robot, the result is the fresh links. |
| BasicCrawler.TakeLast | basic_webcrawler.py:75-78 | A batch pops MAX_THREADS URLs, or all of them when fewer are queued. |
| BasicCrawler.TakeLastAt | basic_webcrawler.py:75-78 | The i-th pop takes the i-th URL from the end of `urls`. |
| BasicCrawler.TakeLastIn | basic_webcrawler.py:75-78 | Every popped URL was queued. |
| BasicCrawler.BatchResultsFrom | basic_webcrawler.py:79-83 | A URL is in the flattened results exactly when some popped page's crawl returned it. |
| BasicCrawler.BatchResultsFresh | basic_webcrawler.py:79-83 | Every result of a batch is non-empty, valid and not in url_set as it stood when the batch started. |
| BasicCrawler.AdmitBasicTakesHandled | basic_webcrawler.py:87-92 | Admission appends exactly the links handled before url_set filled to `urls`, and adds exactly those links to url_set. |
| BasicCrawler.AdmitBasicBounded | basic_webcrawler.py:87-92 | url_set only grows and never passes MAX_LINKS. `urls` keeps its old content as a prefix. Everything appended is in url_set. |
| BasicCrawler.AdmitBasicGrows | basic_webcrawler.py:87-92 | A first result that is new, met while there is room, grows url_set. |
| BasicCrawler.DiamondRootCrawl | basic_webcrawler.py:49-53 | In a web where the root links to "a" then "b" and every other page links to "c", the root's crawl returns ["a", "b"] against an empty url_set. |
| BasicCrawler.DiamondLeafCrawl | basic_webcrawler.py:49-53 | In that web, any other page's crawl returns ["c"] while "c" is not in url_set. |
| BasicCrawler.BothTasksReturnC | basic_webcrawler.py:79-83 | In that web, the tasks on "b" and "a" of one batch both return "c". |
| BasicCrawler.AdmitsRootLinks | basic_webcrawler.py:87-92 | Admitting ["a", "b"] into an empty url_set appends and adds both. |
| BasicCrawler.AdmitsRepeatTwice | basic_webcrawler.py:87-92 | Admitting ["c", "c"] with room appends "c" twice to `urls` and adds it once to url_set. |
| BasicCrawler.DiamondFirstBatch | basic_webcrawler.py:72-92 | In that web, the first batch from the initial state pops the root and leaves urls ["a", "b"] and url_set {"a", "b"}. |
| BasicCrawler.SameBatchQueuesTwice | basic_webcrawler.py:72-92 | In that web, with MAX_THREADS = 2, the second batch from the initial state leaves "c" twice in `urls`. |
| BasicCrawler.PopBatch | basic_webcrawler.py:75-78 | The pop loop takes `TakeLast(urls, MAX_THREADS)` and leaves the rest of `urls` as a prefix. |
| BasicCrawler.CrawlBatch | basic_webcrawler.py:79-83 | The tasks' results, flattened in submission order, are exactly `BatchResults`. |
| BasicCrawler.TakeLastStep | basic_webcrawler.py:75-78 | One more pop appends the next URL from the end. |
| BasicCrawler.BatchResultsStep | basic_webcrawler.py:79-83 | One more task appends its crawl result to the flattened results. |
| BasicCrawler.AdmitLinks | basic_webcrawler.py:87-92 | The admission loop computes exactly `AdmitBasic`. |
| BasicCrawler.RunBatch | basic_webcrawler.py:72-92 | One batch pops `TakeLast(urls, MAX_THREADS)`, and the new `urls` and url_set are exactly `BatchResult`. |
| BasicCrawler.BatchKeepsInv | basic_webcrawler.py:71-92 | A batch pops at least one URL. url_set only grows and stays within MAX_LINKS. Every queued or crawled URL stays the root or in url_set. The batch grows url_set, or else admits nothing and shrinks `urls`. |
| BasicMain.Crawler.constructor | basic_webcrawler.py:60-64 | Only the root is queued, and url_set is empty. |
| BasicMain.Crawler.Batch | basic_webcrawler.py:72-92 | One iteration pops a non-empty batch and appends it to the crawled URLs. The new state is `BatchResult` of the old one. url_set only grows, and the invariant is kept. |
| BasicMain.Crawler.Run | basic_webcrawler.py:71-92 | The loop ends with `urls` empty or url_set at MAX_LINKS. url_set only grows, and the crawled URLs are only extended. |

## Left out

- HTTP requests, BeautifulSoup, `validators.url` and the robots.txt parser are
  not modelled. They are the oracles `hrefs`, `valid` and `robots`, fixed for a
  run.
- Exceptions other than `HTTPError` from the robots.txt request are not
  modelled: connection errors, a failed page fetch, a parser error.
- PageRank is not modelled: its initialisation, iteration, convergence test and
  normalisation (pagerank_webcrawler.py lines 109-156), and the printing of
  ranks and of `url_set`.
- The constants are parameters: the root URL, `MAX_LINKS = 100` and
  `MAX_THREADS = 5`.
- Concurrency: the thread pool's tasks are run one after another, after all the
  pops of the batch. No task reads or changes `urls`, and every task reads the
  same `url_set`, so the results in submission order are the same.
- The shared robots parser: the basic crawler hands one parser object to every
  task of a batch, and concurrent `parse` calls on it could race. The model gives
  each URL its own robots answer.
- PagerankMain.Crawler.Run, BasicMain.Crawler.Run: they do not state the final
  map or list as a function of the initial state. They state the exit condition,
  the kept invariant and the growth of the crawled URLs; `Step` and `Batch` state
  each iteration exactly.
- PagerankCrawler.CrawlNext: it models the intended behaviour, where each step
  uses its own URL's robots answer. As written, the run aborts when a robots
  request succeeds after an earlier one failed (see Findings). On every other run
  each step sees its own URL's answer, which is what `CrawlNext` computes.

## Findings

| source | as written | input that shows it | evidently intended | confidence | as-written member | corrected member |
|---|---|---|---|---|---|---|
| pagerank_webcrawler.py:82-86 | When a robots.txt request raises `HTTPError`, `robot` is set to None for the rest of the run. The next iteration whose robots.txt request succeeds calls `parse` on None. That raises an `AttributeError` that nothing catches, and the crawl aborts before PageRank runs. The trigger needs the robots.txt request to raise `HTTPError`, which the requests library does for an HTTP error status only when asked to, so the crash may stay latent. | The root's robots.txt allows it and the root links to `a` then `b`. `b`'s robots.txt request raises `HTTPError`, and `a`'s succeeds: the run aborts at the third iteration. Robots answers [allow, fail, allow]. | Each iteration uses the robots answer of the URL it crawls. A failed request means no links for that URL only. | not executed | PagerankCrawler.RobotGatesAsWritten, PagerankCrawler.RobotCrashExample | PagerankCrawler.CrawlNext, PagerankMain.Crawler.Step |
