/** The crawl phase of the ranking crawler (pagerank_webcrawler.py): a map
    `webpages` from URL to page entry, a list `queue` used as a stack, and a budget
    of MAX_LINKS + 1 entries, the root included. One URL is crawled per step. */
module PagerankCrawler {
  import opened Web

  /** A `webpages` entry: its inbound-link count and its outbound links. */
  datatype Page = Page(inbound: nat, outbound: seq<Url>)

  /** is_valid_url: an href counts when it is present, non-empty and accepted by
      the validator. */
  predicate IsValidUrl(w: Oracles, link: Option<string>)
    ensures link.None? || link == Some("") ==> !IsValidUrl(w, link)
    ensures IsValidUrl(w, link) ==> w.valid(link.value)
  {
    link.Some? && link.value != "" && w.valid(link.value)
  }

  /** The links web_crawl keeps from a list of hrefs: the valid ones, in document
      order, duplicates kept. */
  function ValidLinks(w: Oracles, hs: seq<Option<string>>): seq<Url> {
    if hs == [] then []
    else
      var h := hs[|hs| - 1];
      var r := ValidLinks(w, hs[..|hs| - 1]);
      if IsValidUrl(w, h) then r + [h.value] else r
  }

  /** ValidLinks selects exactly the valid hrefs: idx lists the positions of the
      kept links, each holding a valid href, in increasing order, and every valid
      position is listed. */
  lemma {:induction false} ValidLinksSelects(w: Oracles, hs: seq<Option<string>>) returns (idx: seq<nat>)
    ensures |idx| == |ValidLinks(w, hs)|
    ensures forall k :: 0 <= k < |idx| ==> idx[k] < |hs| && hs[idx[k]] == Some(ValidLinks(w, hs)[k]) && IsValidUrl(w, hs[idx[k]])
    ensures forall k, l :: 0 <= k < l < |idx| ==> idx[k] < idx[l]
    ensures forall j :: 0 <= j < |hs| && IsValidUrl(w, hs[j]) ==> j in idx
  {
    if hs == [] {
      idx := [];
    } else {
      var p := hs[..|hs| - 1];
      var pi := ValidLinksSelects(w, p);
      if IsValidUrl(w, hs[|hs| - 1]) {
        idx := pi + [|hs| - 1];
      } else {
        idx := pi;
      }
    }
  }

  /** What web_crawl(url, robot) returns for a robots answer `robot`. */
  function CrawlResult(w: Oracles, url: Url, robot: Option<bool>): seq<Url> {
    if robot == Some(true) then ValidLinks(w, w.hrefs(url)) else []
  }

  /** web_crawl: no links unless a robot is present and allows the URL; otherwise
      the valid hrefs of the page, in order. */
  method WebCrawl(w: Oracles, url: Url, robot: Option<bool>) returns (res: seq<Url>)
    ensures robot != Some(true) ==> res == []
    ensures robot == Some(true) ==> res == ValidLinks(w, w.hrefs(url))
  {
    if robot.None? || !robot.value {
      return [];
    }
    var links := w.hrefs(url);
    res := [];
    var i := 0;
    while i < |links|
      invariant 0 <= i <= |links|
      invariant res == ValidLinks(w, links[..i])
    {
      assert links[..i + 1][..i] == links[..i];
      if IsValidUrl(w, links[i]) {
        res := res + [links[i].value];
      }
      i := i + 1;
    }
    assert links[..i] == links;
  }

  /** The admission loop of one step over `links`, with cap = MAX_LINKS + 1: stop
      as soon as the map holds cap entries; a new URL is queued and entered with
      one inbound link, a known one gets one more inbound link. */
  function Admit(pages: map<Url, Page>, queue: seq<Url>, links: seq<Url>, cap: nat): (map<Url, Page>, seq<Url>)
    decreases |links|
  {
    if links == [] || |pages| == cap then (pages, queue)
    else if links[0] !in pages then
      Admit(pages[links[0] := Page(1, [])], queue + [links[0]], links[1..], cap)
    else
      Admit(pages[links[0] := pages[links[0]].(inbound := pages[links[0]].inbound + 1)], queue, links[1..], cap)
  }

  /** What admission does to the queue and the key set: the old queue is kept and
      the URLs appended are new keys, each once; every new key is one of them; the
      map grows by their number and stays within the cap. */
  lemma {:induction false} AdmitQueuesNewKeys(pages: map<Url, Page>, queue: seq<Url>, links: seq<Url>, cap: nat)
    ensures var r := Admit(pages, queue, links, cap);
      && (|pages| <= cap ==> |r.0| <= cap)
      && |queue| <= |r.1| && r.1[..|queue|] == queue
      && |r.0| == |pages| + |r.1| - |queue|
      && (forall u :: u in r.1[|queue|..] ==> u !in pages)
      && (forall u :: u in r.0 <==> u in pages || u in r.1[|queue|..])
      && (NoDups(queue) && (forall u :: u in queue ==> u in pages) ==> NoDups(r.1))
    decreases |links|
  {
    if links == [] || |pages| == cap {
      AdmitDone(pages, queue, links, cap);
    } else {
      var u := links[0];
      var pages1, queue1 := AdmitUnfold(pages, queue, links, cap);
      AdmitQueuesNewKeys(pages1, queue1, links[1..], cap);
      if u !in pages {
        var r := Admit(pages1, queue1, links[1..], cap);
        assert r.1[..|queue| + 1][..|queue|] == queue;
        assert r.1[|queue|..] == [u] + r.1[|queue| + 1..];
        NoDupsAppend(queue, u);
      }
    }
  }

  /** Admission with no link left or a full map changes nothing and handles no link. */
  lemma AdmitDone(pages: map<Url, Page>, queue: seq<Url>, links: seq<Url>, cap: nat)
    requires links == [] || |pages| == cap
    ensures Admit(pages, queue, links, cap) == (pages, queue)
    ensures Handled(pages.Keys, links, cap) == 0
  {
    assert |pages.Keys| == |pages|;
  }

  /** Admission with room and a link left handles the first link, as Admit's two
      cases write it, then goes on with the rest. */
  lemma AdmitUnfold(pages: map<Url, Page>, queue: seq<Url>, links: seq<Url>, cap: nat) returns (pages1: map<Url, Page>, queue1: seq<Url>)
    requires links != [] && |pages| != cap
    ensures links[0] !in pages ==> pages1 == pages[links[0] := Page(1, [])] && queue1 == queue + [links[0]]
    ensures links[0] in pages ==> pages1 == pages[links[0] := pages[links[0]].(inbound := pages[links[0]].inbound + 1)] && queue1 == queue
    ensures pages1.Keys == pages.Keys + {links[0]}
    ensures Admit(pages, queue, links, cap) == Admit(pages1, queue1, links[1..], cap)
    ensures Handled(pages.Keys, links, cap) == 1 + Handled(pages1.Keys, links[1..], cap)
    ensures links[..Handled(pages.Keys, links, cap)] == [links[0]] + links[1..][..Handled(pages1.Keys, links[1..], cap)]
  {
    var u := links[0];
    assert |pages.Keys| == |pages|;
    HandledUnfold(pages.Keys, links, cap);
    if u !in pages {
      pages1, queue1 := pages[u := Page(1, [])], queue + [u];
    } else {
      pages1, queue1 := pages[u := pages[u].(inbound := pages[u].inbound + 1)], queue;
    }
    assert pages1.Keys == pages.Keys + {u};
  }

  /** v is a key after an admission exactly when it was one before or is among
      the handled links. */
  lemma {:induction false} AdmitKey(pages: map<Url, Page>, queue: seq<Url>, links: seq<Url>, cap: nat, v: Url)
    ensures v in Admit(pages, queue, links, cap).0 <==> v in pages || v in links[..Handled(pages.Keys, links, cap)]
    decreases |links|
  {
    if links == [] || |pages| == cap {
      AdmitDone(pages, queue, links, cap);
    } else {
      var pages1, queue1 := AdmitUnfold(pages, queue, links, cap);
      AdmitKey(pages1, queue1, links[1..], cap, v);
    }
  }

  /** A page that was already there keeps its outbound links and gains one
      inbound link per handled occurrence. */
  lemma {:induction false} AdmitCountsKnown(pages: map<Url, Page>, queue: seq<Url>, links: seq<Url>, cap: nat, v: Url)
    requires v in pages
    ensures var r := Admit(pages, queue, links, cap);
      v in r.0 && r.0[v] == pages[v].(inbound := pages[v].inbound + Count(links[..Handled(pages.Keys, links, cap)], v))
    decreases |links|
  {
    if links == [] || |pages| == cap {
      AdmitDone(pages, queue, links, cap);
      assert links[..0] == [];
    } else {
      var pages1, queue1 := AdmitUnfold(pages, queue, links, cap);
      AdmitCountsKnown(pages1, queue1, links[1..], cap, v);
      CountCons(links[0], links[1..][..Handled(pages1.Keys, links[1..], cap)], v);
    }
  }

  /** A page new to the map has one inbound link per handled occurrence and no
      outbound links. */
  lemma {:induction false} AdmitCountsNew(pages: map<Url, Page>, queue: seq<Url>, links: seq<Url>, cap: nat, v: Url)
    requires v !in pages && v in Admit(pages, queue, links, cap).0
    ensures Admit(pages, queue, links, cap).0[v] == Page(Count(links[..Handled(pages.Keys, links, cap)], v), [])
    decreases |links|
  {
    if links == [] || |pages| == cap {
      AdmitDone(pages, queue, links, cap);
    } else {
      var pages1, queue1 := AdmitUnfold(pages, queue, links, cap);
      CountCons(links[0], links[1..][..Handled(pages1.Keys, links[1..], cap)], v);
      if v == links[0] {
        AdmitCountsKnown(pages1, queue1, links[1..], cap, v);
      } else {
        AdmitCountsNew(pages1, queue1, links[1..], cap, v);
      }
    }
  }

  /** Admission keeps every entry's outbound links and never lowers an inbound
      count; a page it creates has no outbound links and at least one inbound link. */
  lemma AdmitKeepsEntries(pages: map<Url, Page>, queue: seq<Url>, links: seq<Url>, cap: nat)
    ensures var r := Admit(pages, queue, links, cap);
      && (forall u :: u in pages ==> u in r.0 && r.0[u].outbound == pages[u].outbound && r.0[u].inbound >= pages[u].inbound)
      && (forall u :: u in r.0 && u !in pages ==> r.0[u].outbound == [] && r.0[u].inbound >= 1)
  {
    var r := Admit(pages, queue, links, cap);
    var handled := links[..Handled(pages.Keys, links, cap)];
    forall u | u in pages
      ensures u in r.0 && r.0[u].outbound == pages[u].outbound && r.0[u].inbound >= pages[u].inbound
    {
      AdmitCountsKnown(pages, queue, links, cap, u);
    }
    forall u | u in r.0 && u !in pages
      ensures r.0[u].outbound == [] && r.0[u].inbound >= 1
    {
      AdmitCountsNew(pages, queue, links, cap, u);
      AdmitKey(pages, queue, links, cap, u);
      assert u in multiset(handled);
    }
  }

  /** A web where the root "r" links to "a" then "b", every string is a valid URL
      and every robots answer allows. */
  function TwoLinks(): Oracles {
    Oracles(u => if u == "r" then [Some("a"), Some("b")] else [], s => true, u => Some(true))
  }

  /** With MAX_LINKS = 1, the first step from the initial state (which the loop
      guard admits) records both links as the root's outbound list but fills the
      map with "a": "b" is an outbound link that never becomes a key. */
  lemma FullMapLeavesDanglingEdge()
    ensures var s := StepResult(TwoLinks(), 1, map["r" := Page(1, [])], ["r"]);
      && "r" in s.0 && s.0["r"].outbound == ["a", "b"]
      && "a" in s.0 && "b" !in s.0 && s.1 == ["a"]
  {
    var w := TwoLinks();
    var hs := w.hrefs("r");
    assert hs == [Some("a"), Some("b")];
    assert hs[..1] == [Some("a")] && hs[..1][..0] == [];
    assert IsValidUrl(w, Some("a")) && IsValidUrl(w, Some("b"));
    assert ValidLinks(w, hs[..1]) == ["a"];
    assert ValidLinks(w, hs) == ["a", "b"];
    var m := map["r" := Page(1, ["a", "b"])];
    var m1 := m["a" := Page(1, [])];
    assert m1.Keys == {"r", "a"};
    assert |m1| == 2;
    assert |m| == 1 && "a" !in m;
    var links: seq<Url> := ["a", "b"];
    assert links[0] == "a" && links[1..] == ["b"];
    assert Admit(m, [], links, 2) == Admit(m1, [] + ["a"], ["b"], 2);
    assert Admit(m1, ["a"], ["b"], 2) == (m1, ["a"]);
  }

  /** The `robot` variable of the loop in main: the parser object, or None after a
      robots.txt request failed. */
  datatype RobotVar = Parser | NoParser

  /** The robots answers main hands to web_crawl over successive steps, as the loop
      is written (answers[k] is None when the k-th robots.txt request raised
      HTTPError). A failure sets `robot` to None for good; a later request that
      succeeds then calls `parse` on None, which raises an error nothing catches
      and ends the run (None here). A request that fails again leaves `robot` None. */
  function RobotGatesAsWritten(robot: RobotVar, answers: seq<Option<bool>>): (r: Option<seq<Option<bool>>>)
    ensures r.Some? ==> |r.value| == |answers|
    decreases |answers|
  {
    if answers == [] then Some([])
    else if robot == NoParser && answers[0].Some? then None
    else
      var next := if answers[0].None? then NoParser else Parser;
      match RobotGatesAsWritten(next, answers[1..])
      case None => None
      case Some(rest) => Some([answers[0]] + rest)
  }

  /** A robots request succeeds at step j after `robot` was lost: at the start, or
      by a failure at an earlier step i. */
  ghost predicate SuccessAfterFailure(robot: RobotVar, answers: seq<Option<bool>>) {
    exists j :: 0 <= j < |answers| && answers[j].Some? &&
      (robot == NoParser || exists i :: 0 <= i < j && answers[i].None?)
  }

  /** As written, the run aborts exactly when a robots request succeeds after an
      earlier one failed; otherwise every step sees its own URL's answer. */
  lemma {:induction false} RobotFailureAbortsLaterStep(robot: RobotVar, answers: seq<Option<bool>>)
    ensures RobotGatesAsWritten(robot, answers).None? <==> SuccessAfterFailure(robot, answers)
    ensures RobotGatesAsWritten(robot, answers).Some? ==> RobotGatesAsWritten(robot, answers).value == answers
    decreases |answers|
  {
    if answers == [] {
    } else if robot == NoParser && answers[0].Some? {
      assert answers[0].Some?;
    } else {
      var next := if answers[0].None? then NoParser else Parser;
      var tail := answers[1..];
      RobotFailureAbortsLaterStep(next, tail);
      if SuccessAfterFailure(next, tail) {
        var j :| 0 <= j < |tail| && tail[j].Some? && (next == NoParser || exists i :: 0 <= i < j && tail[i].None?);
        assert answers[j + 1].Some?;
        if next == NoParser {
          assert answers[0].None?;
        } else {
          var i :| 0 <= i < j && tail[i].None?;
          assert answers[i + 1].None?;
        }
      }
      if SuccessAfterFailure(robot, answers) {
        var j :| 0 <= j < |answers| && answers[j].Some? && (robot == NoParser || exists i :: 0 <= i < j && answers[i].None?);
        assert j > 0;
        assert tail[j - 1].Some?;
        if answers[0].None? {
          assert next == NoParser;
        } else {
          var i :| 0 <= i < j && answers[i].None?;
          assert tail[i - 1].None?;
        }
      }
    }
  }

  /** A root whose robots.txt allows it, a failed request at the next URL and a
      successful one after it: the third step aborts the run as written. */
  lemma RobotCrashExample()
    ensures RobotGatesAsWritten(Parser, [Some(true), None, Some(true)]) == None
  {
    var answers: seq<Option<bool>> := [Some(true), None, Some(true)];
    assert answers[1..] == [None, Some(true)];
    assert answers[1..][1..] == [Some(true)];
  }

  /** The for loop at lines 93-107 over `links`, with cap = MAX_LINKS + 1: stop
      when the map holds cap entries; otherwise queue and enter a new URL, or count
      one more inbound link of a known one. */
  method AdmitLinks(pages0: map<Url, Page>, queue0: seq<Url>, links: seq<Url>, cap: nat) returns (pages: map<Url, Page>, queue: seq<Url>)
    ensures (pages, queue) == Admit(pages0, queue0, links, cap)
  {
    pages, queue := pages0, queue0;
    var i := 0;
    while i < |links|
      invariant 0 <= i <= |links|
      invariant Admit(pages, queue, links[i..], cap) == Admit(pages0, queue0, links, cap)
    {
      if |pages| == cap {
        break;
      }
      var v := links[i];
      AdmitNext(pages, queue, links, i, cap);
      if v !in pages {
        queue := queue + [v];
        pages := pages[v := Page(1, [])];
      } else {
        pages := pages[v := pages[v].(inbound := pages[v].inbound + 1)];
      }
      i := i + 1;
    }
    AdmitDone(pages, queue, links[i..], cap);
  }

  /** Lines 79-107 on the map and the queue: pop the last queued URL, crawl it
      with its own robots answer, record the result as its outbound links, then
      admit the result. */
  method CrawlNext(w: Oracles, maxLinks: nat, pages0: map<Url, Page>, queue0: seq<Url>) returns (u: Url, pages: map<Url, Page>, queue: seq<Url>)
    requires queue0 != [] && queue0[|queue0| - 1] in pages0
    ensures u == queue0[|queue0| - 1]
    ensures (pages, queue) == StepResult(w, maxLinks, pages0, queue0)
  {
    u := queue0[|queue0| - 1];
    var nextUrls := WebCrawl(w, u, w.robots(u));
    assert nextUrls == CrawlResult(w, u, w.robots(u));
    pages, queue := AdmitLinks(pages0[u := pages0[u].(outbound := nextUrls)], queue0[..|queue0| - 1], nextUrls, maxLinks + 1);
  }

  /** Admitting links[i..] with room left handles links[i] as Admit's two cases
      write it, then goes on with links[i + 1..]. */
  lemma AdmitNext(pages: map<Url, Page>, queue: seq<Url>, links: seq<Url>, i: nat, cap: nat)
    requires i < |links| && |pages| != cap
    ensures var v := links[i];
      Admit(pages, queue, links[i..], cap) ==
        if v !in pages then Admit(pages[v := Page(1, [])], queue + [v], links[i + 1..], cap)
        else Admit(pages[v := pages[v].(inbound := pages[v].inbound + 1)], queue, links[i + 1..], cap)
  {
    assert links[i..][1..] == links[i + 1..];
  }

  /** The invariant of main's loop, over the oracles, the root, MAX_LINKS, the map,
      the queue and the URLs crawled so far. */
  ghost predicate Inv(w: Oracles, root: Url, maxLinks: nat, pages: map<Url, Page>, queue: seq<Url>, crawled: seq<Url>) {
    Frontier(root, maxLinks, pages, queue, crawled) && Entries(w, pages, queue, crawled)
  }

  /** The root is a key; at most MAX_LINKS + 1 entries; the keys are exactly the
      queued and the crawled URLs, and no URL is queued or crawled twice. */
  ghost predicate Frontier(root: Url, maxLinks: nat, pages: map<Url, Page>, queue: seq<Url>, crawled: seq<Url>) {
    && root in pages
    && |pages| <= maxLinks + 1
    && NoDups(queue) && NoDups(crawled)
    && (forall u :: u in queue ==> u !in crawled)
    && (forall u :: u in pages <==> u in queue || u in crawled)
    && |queue| + |crawled| == |pages|
  }

  /** Every entry has an inbound link; a queued page has no outbound links yet, and
      a crawled page holds exactly what web_crawl returned for it. */
  ghost predicate Entries(w: Oracles, pages: map<Url, Page>, queue: seq<Url>, crawled: seq<Url>)
    requires forall u :: u in queue || u in crawled ==> u in pages
  {
    && (forall u :: u in pages ==> pages[u].inbound >= 1)
    && (forall u :: u in queue ==> pages[u].outbound == [])
    && (forall u :: u in crawled ==> pages[u].outbound == CrawlResult(w, u, w.robots(u)))
  }

  /** The state after one step of the loop from (pages, queue): the last queued URL
      gets its crawl result as outbound links, then that result is admitted. */
  function StepResult(w: Oracles, maxLinks: nat, pages: map<Url, Page>, queue: seq<Url>): (map<Url, Page>, seq<Url>)
    requires queue != [] && queue[|queue| - 1] in pages
  {
    var u := queue[|queue| - 1];
    var links := CrawlResult(w, u, w.robots(u));
    Admit(pages[u := pages[u].(outbound := links)], queue[..|queue| - 1], links, maxLinks + 1)
  }

  /** One step keeps the frontier invariant: the popped URL moves from the queue to
      the crawled ones, and admission queues new keys only. */
  lemma StepKeepsFrontier(root: Url, maxLinks: nat, pages: map<Url, Page>, queue: seq<Url>, crawled: seq<Url>, pages1: map<Url, Page>, links: seq<Url>)
    requires Frontier(root, maxLinks, pages, queue, crawled) && queue != []
    requires pages1.Keys == pages.Keys
    ensures var r := Admit(pages1, queue[..|queue| - 1], links, maxLinks + 1);
      Frontier(root, maxLinks, r.0, r.1, crawled + [queue[|queue| - 1]])
  {
    PopKeepsFrontier(root, maxLinks, pages, queue, crawled, pages1);
    AdmitKeepsFrontier(root, maxLinks, pages1, queue[..|queue| - 1], crawled + [queue[|queue| - 1]], links);
  }

  /** Popping the last queued URL into the crawled ones keeps the frontier
      invariant, whatever the popped page's entry becomes. */
  lemma PopKeepsFrontier(root: Url, maxLinks: nat, pages: map<Url, Page>, queue: seq<Url>, crawled: seq<Url>, pages1: map<Url, Page>)
    requires Frontier(root, maxLinks, pages, queue, crawled) && queue != []
    requires pages1.Keys == pages.Keys
    ensures Frontier(root, maxLinks, pages1, queue[..|queue| - 1], crawled + [queue[|queue| - 1]])
  {
    var u := queue[|queue| - 1];
    var queue1 := queue[..|queue| - 1];
    assert |pages1| == |pages| by {
      assert |pages1.Keys| == |pages.Keys|;
    }
    assert queue == queue1 + [u];
    NoDupsAppend(crawled, u);
  }

  /** Admission keeps the frontier invariant: it queues new keys only, each once,
      and never passes MAX_LINKS + 1 entries. */
  lemma AdmitKeepsFrontier(root: Url, maxLinks: nat, pages: map<Url, Page>, queue: seq<Url>, crawled: seq<Url>, links: seq<Url>)
    requires Frontier(root, maxLinks, pages, queue, crawled)
    ensures var r := Admit(pages, queue, links, maxLinks + 1);
      Frontier(root, maxLinks, r.0, r.1, crawled)
  {
    var r := Admit(pages, queue, links, maxLinks + 1);
    AdmitQueuesNewKeys(pages, queue, links, maxLinks + 1);
    AdmitKey(pages, queue, links, maxLinks + 1, root);
    QueuedNotCrawled(pages, queue, links, maxLinks + 1, crawled);
    assert r.1 == queue + r.1[|queue|..];
  }

  /** After admission, a URL still queued or newly queued is not among URLs that
      were keys and not queued before. */
  lemma QueuedNotCrawled(pages: map<Url, Page>, queue: seq<Url>, links: seq<Url>, cap: nat, crawled: seq<Url>)
    requires forall x :: x in crawled ==> x in pages && x !in queue
    ensures forall x :: x in Admit(pages, queue, links, cap).1 ==> x !in crawled
  {
    var r := Admit(pages, queue, links, cap);
    AdmitQueuesNewKeys(pages, queue, links, cap);
    assert r.1 == queue + r.1[|queue|..];
  }

  /** One step keeps the entry invariant: only the popped page's outbound links
      change, to its crawl result, and admission keeps outbound links. */
  lemma StepKeepsEntries(w: Oracles, maxLinks: nat, pages: map<Url, Page>, queue: seq<Url>, crawled: seq<Url>)
    requires queue != [] && NoDups(queue) && (forall x :: x in queue ==> x !in crawled)
    requires forall u :: u in queue || u in crawled ==> u in pages
    requires Entries(w, pages, queue, crawled)
    ensures var r := StepResult(w, maxLinks, pages, queue);
      var crawled1 := crawled + [queue[|queue| - 1]];
      && (forall x :: x in r.1 || x in crawled1 ==> x in r.0)
      && Entries(w, r.0, r.1, crawled1)
  {
    var u := queue[|queue| - 1];
    var links := CrawlResult(w, u, w.robots(u));
    PopEntries(w, pages, queue, crawled);
    AdmitKeepsInvEntries(w, pages[u := pages[u].(outbound := links)], queue[..|queue| - 1], crawled + [u], links, maxLinks + 1);
  }

  /** Admission keeps the entry invariant, for the queue and crawled URLs it is
      given. */
  lemma AdmitKeepsInvEntries(w: Oracles, pages: map<Url, Page>, queue: seq<Url>, crawled: seq<Url>, links: seq<Url>, cap: nat)
    requires forall x :: x in pages ==> pages[x].inbound >= 1
    requires forall x :: x in queue ==> x in pages && pages[x].outbound == []
    requires forall x :: x in crawled ==> x in pages && pages[x].outbound == CrawlResult(w, x, w.robots(x))
    ensures var r := Admit(pages, queue, links, cap);
      && (forall x :: x in r.1 || x in crawled ==> x in r.0)
      && Entries(w, r.0, r.1, crawled)
  {
    AdmitQueuedPending(pages, queue, links, cap);
    AdmitKeepsEntries(pages, queue, links, cap);
  }

  /** Popping the last queued URL and recording its crawl result keeps the other
      queued pages pending and gives every crawled page its crawl result. */
  lemma PopEntries(w: Oracles, pages: map<Url, Page>, queue: seq<Url>, crawled: seq<Url>)
    requires queue != [] && NoDups(queue) && (forall x :: x in queue ==> x !in crawled)
    requires forall u :: u in queue || u in crawled ==> u in pages
    requires Entries(w, pages, queue, crawled)
    ensures var u := queue[|queue| - 1];
      var pages1 := pages[u := pages[u].(outbound := CrawlResult(w, u, w.robots(u)))];
      && (forall x :: x in queue[..|queue| - 1] ==> x in pages1 && pages1[x].outbound == [])
      && (forall x :: x in crawled + [u] ==> x in pages1 && pages1[x].outbound == CrawlResult(w, x, w.robots(x)))
      && (forall x :: x in pages1 ==> pages1[x].inbound >= 1)
  {
    var u := queue[|queue| - 1];
    var queue1 := queue[..|queue| - 1];
    assert forall x :: x in queue1 ==> x in queue && x != u;
  }

  /** Admission keeps queued pages pending: every URL it leaves queued is a key with
      no outbound links, provided that held of the queue before. */
  lemma AdmitQueuedPending(pages: map<Url, Page>, queue: seq<Url>, links: seq<Url>, cap: nat)
    requires forall x :: x in queue ==> x in pages && pages[x].outbound == []
    ensures var r := Admit(pages, queue, links, cap);
      forall x :: x in r.1 ==> x in r.0 && r.0[x].outbound == []
  {
    var r := Admit(pages, queue, links, cap);
    AdmitQueuesNewKeys(pages, queue, links, cap);
    AdmitKeepsEntries(pages, queue, links, cap);
    assert r.1 == queue + r.1[|queue|..];
  }

  /** The URL a step pops is a key of the map. */
  lemma LastQueuedIsKey(w: Oracles, root: Url, maxLinks: nat, pages: map<Url, Page>, queue: seq<Url>, crawled: seq<Url>)
    requires Inv(w, root, maxLinks, pages, queue, crawled) && queue != []
    ensures queue[|queue| - 1] in pages
  {
  }

  /** Lines 63-73 establish the invariant: the root is the one entry and the one
      queued URL, with one inbound link and no outbound links. */
  lemma InitInv(w: Oracles, root: Url, maxLinks: nat)
    ensures Inv(w, root, maxLinks, map[root := Page(1, [])], [root], [])
  {
    assert NoDups([root]) by {
      assert [root][..0] == [];
    }
  }

  /** One step of the loop keeps the invariant. */
  lemma StepKeepsInv(w: Oracles, root: Url, maxLinks: nat, pages: map<Url, Page>, queue: seq<Url>, crawled: seq<Url>, pages': map<Url, Page>, queue': seq<Url>)
    requires Inv(w, root, maxLinks, pages, queue, crawled) && queue != [] && |pages| < maxLinks + 1
    requires queue[|queue| - 1] in pages && (pages', queue') == StepResult(w, maxLinks, pages, queue)
    ensures Inv(w, root, maxLinks, pages', queue', crawled + [queue[|queue| - 1]])
  {
    var u := queue[|queue| - 1];
    var links := CrawlResult(w, u, w.robots(u));
    StepKeepsFrontier(root, maxLinks, pages, queue, crawled, pages[u := pages[u].(outbound := links)], links);
    StepKeepsEntries(w, maxLinks, pages, queue, crawled);
  }

  /** Lines 79-107 under the invariant: the popped URL has an entry, the new map
      and queue are exactly `StepResult`, and the invariant holds with the popped
      URL added to the crawled ones. */
  method CrawlStep(w: Oracles, root: Url, maxLinks: nat, pages0: map<Url, Page>, queue0: seq<Url>, ghost crawled: seq<Url>)
    returns (u: Url, pages: map<Url, Page>, queue: seq<Url>)
    requires Inv(w, root, maxLinks, pages0, queue0, crawled) && queue0 != [] && |pages0| < maxLinks + 1
    ensures u == queue0[|queue0| - 1] && u in pages0
    ensures (pages, queue) == StepResult(w, maxLinks, pages0, queue0)
    ensures Inv(w, root, maxLinks, pages, queue, crawled + [u])
  {
    LastQueuedIsKey(w, root, maxLinks, pages0, queue0, crawled);
    u, pages, queue := CrawlNext(w, maxLinks, pages0, queue0);
    StepKeepsInv(w, root, maxLinks, pages0, queue0, crawled, pages, queue);
  }
}

/** The while loop of main in pagerank_webcrawler.py, over the crawl model above. */
module PagerankMain {
  import opened Web
  import opened PagerankCrawler

  /** The crawl state of main: `webpages`, `queue`, and (ghost) the URLs crawled so
      far in crawl order. The root, MAX_LINKS and the oracles are parameters. */
  class Crawler {
    const w: Oracles
    const root: Url
    const maxLinks: nat
    var webpages: map<Url, Page>
    var queue: seq<Url>
    ghost var crawled: seq<Url>

    ghost predicate Valid()
      reads this
    {
      Inv(w, root, maxLinks, webpages, queue, crawled)
    }

    /** Lines 63-73: the root is the one entry, with one inbound link, and the one
        queued URL. */
    constructor (w: Oracles, root: Url, maxLinks: nat)
      ensures Valid()
      ensures this.w == w && this.root == root && this.maxLinks == maxLinks
      ensures webpages == map[root := Page(1, [])] && queue == [root] && crawled == []
    {
      this.w := w;
      this.root := root;
      this.maxLinks := maxLinks;
      webpages := map[root := Page(1, [])];
      queue := [root];
      crawled := [];
      InitInv(w, root, maxLinks);
    }

    /** One iteration of the while loop: pop the last queued URL, crawl it with its
        own robots answer, record the result as its outbound links, then admit the
        result. */
    method Step() returns (u: Url)
      requires Valid() && queue != [] && |webpages| < maxLinks + 1
      modifies this
      ensures Valid()
      ensures u == old(queue[|queue| - 1])
      ensures crawled == old(crawled) + [u]
      ensures (webpages, queue) == StepResult(w, maxLinks, old(webpages), old(queue))
    {
      var pages, q;
      u, pages, q := CrawlStep(w, root, maxLinks, webpages, queue, crawled);
      webpages, queue, crawled := pages, q, crawled + [u];
    }

    /** The while loop of main: crawl until the queue is empty or the map holds
        MAX_LINKS + 1 entries. Each step adds one URL to the crawled ones, which
        never repeat, so the loop ends. */
    method Run()
      requires Valid()
      modifies this
      ensures Valid()
      ensures queue == [] || |webpages| == maxLinks + 1
      ensures |old(crawled)| <= |crawled| && crawled[..|old(crawled)|] == old(crawled)
    {
      while queue != [] && |webpages| < maxLinks + 1
        invariant Valid()
        invariant |old(crawled)| <= |crawled| && crawled[..|old(crawled)|] == old(crawled)
        decreases maxLinks + 1 - |crawled|
      {
        var _ := Step();
      }
    }
  }
}
