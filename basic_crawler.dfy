/** The basic crawler (basic_webcrawler.py): a list `urls` used as a stack and a
    set `url_set` of admitted URLs, at most MAX_LINKS of them, the root not in
    it at the start. URLs are crawled in batches of up to MAX_THREADS, every task of a
    batch filtering against the set as it was when the batch started. */
module BasicCrawler {
  import opened Web

  /** is_valid_url: an href counts when it is present, non-empty, accepted by the
      validator and not yet in url_set. */
  predicate IsValidUrl(w: Oracles, link: Option<string>, urlSet: set<Url>)
    ensures link.None? || link == Some("") ==> !IsValidUrl(w, link, urlSet)
    ensures link.Some? && link.value in urlSet ==> !IsValidUrl(w, link, urlSet)
    ensures IsValidUrl(w, link, urlSet) ==> w.valid(link.value)
  {
    link.Some? && link.value != "" && w.valid(link.value) && link.value !in urlSet
  }

  /** The links web_crawl keeps from a list of hrefs: each valid href not yet kept. */
  function FreshLinks(w: Oracles, hs: seq<Option<string>>, urlSet: set<Url>): seq<Url> {
    if hs == [] then []
    else
      var h := hs[|hs| - 1];
      var r := FreshLinks(w, hs[..|hs| - 1], urlSet);
      if (h.None? || h.value !in r) && IsValidUrl(w, h, urlSet) then r + [h.value] else r
  }

  /** FreshLinks keeps no link twice. */
  lemma {:induction false} FreshLinksDistinct(w: Oracles, hs: seq<Option<string>>, urlSet: set<Url>)
    ensures NoDups(FreshLinks(w, hs, urlSet))
    decreases |hs|
  {
    if hs != [] {
      var h := hs[|hs| - 1];
      var r := FreshLinks(w, hs[..|hs| - 1], urlSet);
      FreshLinksDistinct(w, hs[..|hs| - 1], urlSet);
      if (h.None? || h.value !in r) && IsValidUrl(w, h, urlSet) {
        NoDupsAppend(r, h.value);
      }
    }
  }

  /** FreshLinks keeps exactly the hrefs that pass is_valid_url. */
  lemma {:induction false} FreshLinksExact(w: Oracles, hs: seq<Option<string>>, urlSet: set<Url>, x: Url)
    ensures x in FreshLinks(w, hs, urlSet) <==> Some(x) in hs && IsValidUrl(w, Some(x), urlSet)
    decreases |hs|
  {
    if hs != [] {
      var p := hs[..|hs| - 1];
      FreshLinksExact(w, p, urlSet, x);
      assert hs == p + [hs[|hs| - 1]];
    }
  }

  /** FreshLinks keeps first-occurrence order: of two kept links, the earlier one
      first occurs earlier among the hrefs. */
  lemma {:induction false} FreshLinksOrdered(w: Oracles, hs: seq<Option<string>>, urlSet: set<Url>, k: nat, l: nat)
    requires k < l < |FreshLinks(w, hs, urlSet)|
    ensures IndexOf(hs, Some(FreshLinks(w, hs, urlSet)[k])) < IndexOf(hs, Some(FreshLinks(w, hs, urlSet)[l]))
    decreases |hs|
  {
    var p := hs[..|hs| - 1];
    var h := hs[|hs| - 1];
    var r := FreshLinks(w, p, urlSet);
    var x := FreshLinks(w, hs, urlSet)[k];
    var y := FreshLinks(w, hs, urlSet)[l];
    assert hs == p + [h];
    FreshLinksExact(w, p, urlSet, x);
    IndexOfAppend(p, h, Some(x));
    if l < |r| {
      FreshLinksExact(w, p, urlSet, y);
      IndexOfAppend(p, h, Some(y));
      FreshLinksOrdered(w, p, urlSet, k, l);
    } else {
      FreshLinksExact(w, p, urlSet, y);
      IndexOfAppend(p, h, Some(y));
    }
  }

  /** What web_crawl(url, robot, url_set) returns: nothing when the robots answer
      disallows the URL; otherwise, also when there is no robot, the fresh links. */
  function CrawlResult(w: Oracles, url: Url, urlSet: set<Url>): seq<Url> {
    if w.robots(url) == Some(false) then [] else FreshLinks(w, w.hrefs(url), urlSet)
  }

  /** web_crawl: the robots gate, then the href loop that skips links already kept. */
  method WebCrawl(w: Oracles, url: Url, urlSet: set<Url>) returns (res: seq<Url>)
    ensures w.robots(url) == Some(false) ==> res == []
    ensures w.robots(url) != Some(false) ==> res == FreshLinks(w, w.hrefs(url), urlSet)
  {
    var robot := w.robots(url);
    if robot.Some? && !robot.value {
      return [];
    }
    var links := w.hrefs(url);
    res := [];
    var i := 0;
    while i < |links|
      invariant 0 <= i <= |links|
      invariant res == FreshLinks(w, links[..i], urlSet)
    {
      assert links[..i + 1][..i] == links[..i];
      var link := links[i];
      if (link.None? || link.value !in res) && IsValidUrl(w, link, urlSet) {
        res := res + [link.value];
      }
      i := i + 1;
    }
    assert links[..i] == links;
  }

  /** The last n elements of s (all of s when it is shorter), last one first: the
      order in which n pops take them. */
  function TakeLast(s: seq<Url>, n: nat): (r: seq<Url>)
    ensures |r| == if n < |s| then n else |s|
  {
    if n > |s| then TakeLast(s, |s|)
    else if n == 0 then []
    else TakeLast(s, n - 1) + [s[|s| - n]]
  }

  /** The i-th pop takes the i-th element from the end. */
  lemma {:induction false} TakeLastAt(s: seq<Url>, n: nat, i: nat)
    requires i < |TakeLast(s, n)|
    ensures TakeLast(s, n)[i] == s[|s| - 1 - i]
    decreases n
  {
    if n > |s| {
      TakeLastAt(s, |s|, i);
    } else if i < n - 1 {
      TakeLastAt(s, n - 1, i);
    }
  }

  /** The flattened results of one batch, in submission order, every task seeing
      the same url_set. */
  function BatchResults(w: Oracles, popped: seq<Url>, urlSet: set<Url>): seq<Url> {
    if popped == [] then []
    else BatchResults(w, popped[..|popped| - 1], urlSet) + CrawlResult(w, popped[|popped| - 1], urlSet)
  }

  /** A URL belongs to a batch's results exactly when some popped page's crawl
      returned it. */
  lemma {:induction false} BatchResultsFrom(w: Oracles, popped: seq<Url>, urlSet: set<Url>, x: Url)
    ensures x in BatchResults(w, popped, urlSet) <==> exists u :: u in popped && x in CrawlResult(w, u, urlSet)
    decreases |popped|
  {
    if popped != [] {
      var p := popped[..|popped| - 1];
      var u := popped[|popped| - 1];
      BatchResultsFrom(w, p, urlSet, x);
      assert popped == p + [u];
      if x in CrawlResult(w, u, urlSet) {
        assert u in popped;
      }
      if exists v :: v in popped && x in CrawlResult(w, v, urlSet) {
        var v :| v in popped && x in CrawlResult(w, v, urlSet);
        assert v in p || v == u;
      }
    }
  }

  /** Every result of a batch passed is_valid_url against the batch's url_set:
      it is non-empty, valid and not yet admitted. */
  lemma {:induction false} BatchResultsFresh(w: Oracles, popped: seq<Url>, urlSet: set<Url>, x: Url)
    requires x in BatchResults(w, popped, urlSet)
    ensures x !in urlSet && x != "" && w.valid(x)
    decreases |popped|
  {
    var p := popped[..|popped| - 1];
    var u := popped[|popped| - 1];
    if x in BatchResults(w, p, urlSet) {
      BatchResultsFresh(w, p, urlSet, x);
    } else {
      FreshLinksExact(w, w.hrefs(u), urlSet, x);
    }
  }

  /** The admission loop of one batch: stop at the first link met once url_set
      holds MAX_LINKS URLs; otherwise append the link to urls and add it to
      url_set, whether or not it is there already. */
  function AdmitBasic(urls: seq<Url>, urlSet: set<Url>, links: seq<Url>, maxLinks: nat): (seq<Url>, set<Url>)
    decreases |links|
  {
    if links == [] || |urlSet| == maxLinks then (urls, urlSet)
    else AdmitBasic(urls + [links[0]], urlSet + {links[0]}, links[1..], maxLinks)
  }

  /** Admission appends exactly the handled links to urls and adds exactly those
      to url_set; the handled links are the longest prefix met while url_set had
      room (Handled, HandledStopsWhenFull, HandledHadRoom). */
  lemma {:induction false} AdmitBasicTakesHandled(urls: seq<Url>, urlSet: set<Url>, links: seq<Url>, maxLinks: nat)
    ensures var n := Handled(urlSet, links, maxLinks);
      AdmitBasic(urls, urlSet, links, maxLinks) == (urls + links[..n], urlSet + Elems(links[..n]))
    decreases |links|
  {
    var n := Handled(urlSet, links, maxLinks);
    if links == [] || |urlSet| == maxLinks {
      assert links[..n] == [];
      assert Elems(links[..n]) == {};
      assert urlSet + Elems(links[..n]) == urlSet;
      assert urls + links[..n] == urls;
    } else {
      var u := links[0];
      HandledUnfold(urlSet, links, maxLinks);
      AdmitBasicTakesHandled(urls + [u], urlSet + {u}, links[1..], maxLinks);
      var m := Handled(urlSet + {u}, links[1..], maxLinks);
      ElemsCons(u, links[1..][..m]);
      assert links[..n] == [u] + links[1..][..m];
      assert urls + links[..n] == urls + [u] + links[1..][..m];
      assert urlSet + Elems(links[..n]) == urlSet + {u} + Elems(links[1..][..m]);
    }
  }

  /** url_set never exceeds MAX_LINKS and only grows; everything admission
      appends to urls is in the new url_set. */
  lemma {:induction false} AdmitBasicBounded(urls: seq<Url>, urlSet: set<Url>, links: seq<Url>, maxLinks: nat)
    requires |urlSet| <= maxLinks
    ensures var r := AdmitBasic(urls, urlSet, links, maxLinks);
      && urlSet <= r.1 && |urlSet| <= |r.1| <= maxLinks
      && |urls| <= |r.0| && r.0[..|urls|] == urls
      && forall k :: |urls| <= k < |r.0| ==> r.0[k] in r.1
    decreases |links|
  {
    if links != [] && |urlSet| != maxLinks {
      var u := links[0];
      if u in urlSet {
        assert urlSet + {u} == urlSet;
      }
      AdmitBasicBounded(urls + [u], urlSet + {u}, links[1..], maxLinks);
      var r := AdmitBasic(urls, urlSet, links, maxLinks);
      assert r.0[..|urls| + 1][..|urls|] == urls;
    }
  }

  /** A batch whose first result is new, met while there is room, grows url_set. */
  lemma AdmitBasicGrows(urls: seq<Url>, urlSet: set<Url>, links: seq<Url>, maxLinks: nat)
    requires |urlSet| < maxLinks && links != [] && links[0] !in urlSet
    ensures |urlSet| < |AdmitBasic(urls, urlSet, links, maxLinks).1|
  {
    var u := links[0];
    AdmitBasicBounded(urls + [u], urlSet + {u}, links[1..], maxLinks);
    assert |urlSet + {u}| == |urlSet| + 1;
  }

  /** A web where the root "r" links to "a" then "b", every other page links to
      "c" only, every string is a valid URL and every robots answer allows. */
  function Diamond(): Oracles {
    Oracles(u => if u == "r" then [Some("a"), Some("b")] else [Some("c")], s => true, u => Some(true))
  }

  /** The root of that web yields ["a", "b"] against an empty url_set. */
  lemma DiamondRootCrawl()
    ensures CrawlResult(Diamond(), "r", {}) == ["a", "b"]
  {
    var w := Diamond();
    var hs := w.hrefs("r");
    assert hs == [Some("a"), Some("b")];
    assert hs[..1] == [Some("a")] && hs[..1][..0] == [];
    assert FreshLinks(w, hs[..1], {}) == ["a"];
  }

  /** Any other page of that web yields ["c"] while "c" is not admitted. */
  lemma DiamondLeafCrawl(u: Url, urlSet: set<Url>)
    requires u != "r" && "c" !in urlSet
    ensures CrawlResult(Diamond(), u, urlSet) == ["c"]
  {
    var w := Diamond();
    var hs := w.hrefs(u);
    assert hs == [Some("c")] && hs[..0] == [];
    assert IsValidUrl(w, Some("c"), urlSet);
    assert FreshLinks(w, hs, urlSet) == [] + ["c"];
  }

  /** The second batch's two tasks, on "b" and "a", both return "c". */
  lemma BothTasksReturnC()
    ensures BatchResults(Diamond(), ["b", "a"], {"a", "b"}) == ["c", "c"]
  {
    var w := Diamond();
    var popped: seq<Url> := ["b", "a"];
    DiamondLeafCrawl("b", {"a", "b"});
    DiamondLeafCrawl("a", {"a", "b"});
    BatchResultsStep(w, popped, 0, {"a", "b"});
    BatchResultsStep(w, popped, 1, {"a", "b"});
    assert popped[..0] == [] && popped[..2] == popped;
  }

  /** Admitting ["c", "c"] with room appends "c" twice and adds it once. */
  lemma AdmitsRepeatTwice()
    ensures AdmitBasic([], {"a", "b"}, ["c", "c"], 5) == (["c", "c"], {"a", "b", "c"})
  {
    var ab: set<Url> := {"a", "b"};
    var abc: set<Url> := {"a", "b", "c"};
    assert ["c", "c"][1..] == ["c"] && ["c"][1..] == [];
    assert |ab| == 2 && ab + {"c"} == abc && |abc| == 3 && abc + {"c"} == abc;
    assert [] + ["c"] == ["c"] && ["c"] + ["c"] == ["c", "c"];
    assert AdmitBasic([], ab, ["c", "c"], 5) == AdmitBasic(["c"], abc, ["c"], 5);
    assert AdmitBasic(["c"], abc, ["c"], 5) == AdmitBasic(["c", "c"], abc, [], 5);
  }

  /** Admitting ["a", "b"] into an empty url_set appends and adds both. */
  lemma AdmitsRootLinks()
    ensures AdmitBasic([], {}, ["a", "b"], 5) == (["a", "b"], {"a", "b"})
  {
    var none: set<Url> := {};
    var a: set<Url> := {"a"};
    var ab: set<Url> := {"a", "b"};
    assert ["a", "b"][1..] == ["b"] && ["b"][1..] == [];
    assert |none| == 0 && none + {"a"} == a && |a| == 1 && a + {"b"} == ab;
    assert [] + ["a"] == ["a"] && ["a"] + ["b"] == ["a", "b"];
    assert AdmitBasic([], none, ["a", "b"], 5) == AdmitBasic(["a"], a, ["b"], 5);
    assert AdmitBasic(["a"], a, ["b"], 5) == AdmitBasic(["a", "b"], ab, [], 5);
  }

  /** The first batch from the initial state (only the root queued, url_set empty)
      pops the root and admits "a" and "b". */
  lemma DiamondFirstBatch()
    ensures BatchResult(Diamond(), 5, 2, ["r"], {}) == (["a", "b"], {"a", "b"})
  {
    var w := Diamond();
    var urls: seq<Url> := ["r"];
    assert TakeLast(urls, 1) == TakeLast(urls, 0) + [urls[0]] == urls;
    assert TakeLast(urls, 2) == urls;
    assert urls[..0] == [];
    DiamondRootCrawl();
    assert BatchResults(w, urls, {}) == BatchResults(w, [], {}) + CrawlResult(w, "r", {}) == ["a", "b"];
    AdmitsRootLinks();
  }

  /** Two pages that link to the same fresh URL, crawled in one batch, get it
      queued twice, since both tasks filter against the same url_set: from the
      initial state, the second batch leaves "c" twice in urls. */
  lemma SameBatchQueuesTwice()
    ensures var s1 := BatchResult(Diamond(), 5, 2, ["r"], {});
      s1 == (["a", "b"], {"a", "b"}) &&
      BatchResult(Diamond(), 5, 2, s1.0, s1.1) == (["c", "c"], {"a", "b", "c"})
  {
    DiamondFirstBatch();
    var urls: seq<Url> := ["a", "b"];
    assert TakeLast(urls, 2) == TakeLast(urls, 1) + ["a"] == [] + ["b"] + ["a"];
    assert urls[..0] == [];
    BothTasksReturnC();
    AdmitsRepeatTwice();
  }

  /** Lines 75-79: pop up to maxThreads URLs off the end of `urls`, stopping
      early when it empties. */
  method PopBatch(urls0: seq<Url>, maxThreads: nat) returns (popped: seq<Url>, urls: seq<Url>)
    ensures popped == TakeLast(urls0, maxThreads)
    ensures urls == urls0[..|urls0| - |popped|]
  {
    popped, urls := [], urls0;
    var t := 0;
    while t < maxThreads
      invariant t <= maxThreads && t <= |urls0|
      invariant popped == TakeLast(urls0, t)
      invariant urls == urls0[..|urls0| - t]
    {
      if urls == [] {
        break;
      }
      var url := urls[|urls| - 1];
      urls := urls[..|urls| - 1];
      TakeLastStep(urls0, t);
      popped := popped + [url];
      t := t + 1;
    }
    TakeLastAll(urls0, t, maxThreads);
  }

  /** Lines 79-83: a task per popped URL, all against the same url_set, their
      results flattened in submission order. No task changes `urls` or url_set,
      so running the tasks after the pops yields what the interleaved loop does. */
  method CrawlBatch(w: Oracles, popped: seq<Url>, urlSet: set<Url>) returns (nextUrls: seq<Url>)
    ensures nextUrls == BatchResults(w, popped, urlSet)
  {
    nextUrls := [];
    var i := 0;
    while i < |popped|
      invariant 0 <= i <= |popped|
      invariant nextUrls == BatchResults(w, popped[..i], urlSet)
    {
      BatchResultsStep(w, popped, i, urlSet);
      var res := WebCrawl(w, popped[i], urlSet);
      nextUrls := nextUrls + res;
      i := i + 1;
    }
    assert popped[..i] == popped;
  }

  /** One more pop takes the next element from the end. */
  lemma TakeLastStep(s: seq<Url>, k: nat)
    requires k < |s|
    ensures TakeLast(s, k + 1) == TakeLast(s, k) + [s[|s| - 1 - k]]
  {
  }

  /** Asking for more pops than there are elements takes them all. */
  lemma TakeLastAll(s: seq<Url>, k: nat, n: nat)
    requires k <= n && k <= |s| && (k == n || k == |s|)
    ensures TakeLast(s, n) == TakeLast(s, k)
  {
  }

  /** One more task appends its crawl result to the batch's results. */
  lemma BatchResultsStep(w: Oracles, popped: seq<Url>, i: nat, urlSet: set<Url>)
    requires i < |popped|
    ensures BatchResults(w, popped[..i + 1], urlSet) == BatchResults(w, popped[..i], urlSet) + CrawlResult(w, popped[i], urlSet)
  {
    assert popped[..i + 1][..i] == popped[..i];
  }

  /** Lines 87-92: the admission loop over next_urls. */
  method AdmitLinks(urls0: seq<Url>, urlSet0: set<Url>, links: seq<Url>, maxLinks: nat) returns (urls: seq<Url>, urlSet: set<Url>)
    ensures (urls, urlSet) == AdmitBasic(urls0, urlSet0, links, maxLinks)
  {
    urls, urlSet := urls0, urlSet0;
    var i := 0;
    while i < |links|
      invariant 0 <= i <= |links|
      invariant AdmitBasic(urls, urlSet, links[i..], maxLinks) == AdmitBasic(urls0, urlSet0, links, maxLinks)
    {
      if |urlSet| == maxLinks {
        break;
      }
      assert links[i..][1..] == links[i + 1..];
      urls := urls + [links[i]];
      urlSet := urlSet + {links[i]};
      i := i + 1;
    }
  }

  /** A popped URL comes from the list it was popped from. */
  lemma {:induction false} TakeLastIn(s: seq<Url>, n: nat, x: Url)
    requires x in TakeLast(s, n)
    ensures x in s
    decreases n
  {
    if n > |s| {
      TakeLastIn(s, |s|, x);
    } else if x != s[|s| - n] {
      TakeLastIn(s, n - 1, x);
    }
  }

  /** Every URL of s is the root or in url_set. */
  ghost predicate Counted(root: Url, urlSet: set<Url>, s: seq<Url>) {
    forall u :: u in s ==> u == root || u in urlSet
  }

  /** The state after one batch from (urls, url_set): pop, crawl, admit. */
  function BatchResult(w: Oracles, maxLinks: nat, maxThreads: nat, urls: seq<Url>, urlSet: set<Url>): (seq<Url>, set<Url>) {
    var popped := TakeLast(urls, maxThreads);
    AdmitBasic(urls[..|urls| - |popped|], urlSet, BatchResults(w, popped, urlSet), maxLinks)
  }

  /** Lines 72-92 on `urls` and url_set: pop a batch, crawl it, admit the results. */
  method RunBatch(w: Oracles, maxLinks: nat, maxThreads: nat, urls0: seq<Url>, urlSet0: set<Url>) returns (popped: seq<Url>, urls: seq<Url>, urlSet: set<Url>)
    ensures popped == TakeLast(urls0, maxThreads)
    ensures (urls, urlSet) == BatchResult(w, maxLinks, maxThreads, urls0, urlSet0)
  {
    var rest;
    popped, rest := PopBatch(urls0, maxThreads);
    var nextUrls := CrawlBatch(w, popped, urlSet0);
    urls, urlSet := AdmitLinks(rest, urlSet0, nextUrls, maxLinks);
    assert rest == urls0[..|urls0| - |TakeLast(urls0, maxThreads)|];
  }

  /** One batch keeps url_set within MAX_LINKS and keeps every queued or crawled
      URL counted; it grows url_set, or else admits nothing and shrinks urls. */
  lemma BatchKeepsInv(w: Oracles, root: Url, maxLinks: nat, maxThreads: nat, urls: seq<Url>, urlSet: set<Url>, crawled: seq<Url>)
    requires maxThreads >= 1 && urls != [] && |urlSet| < maxLinks
    requires Counted(root, urlSet, urls) && Counted(root, urlSet, crawled)
    ensures var popped := TakeLast(urls, maxThreads);
      var r := BatchResult(w, maxLinks, maxThreads, urls, urlSet);
      && popped != []
      && urlSet <= r.1 && |r.1| <= maxLinks
      && Counted(root, r.1, r.0) && Counted(root, r.1, crawled + popped)
      && (|urlSet| < |r.1| || (r.1 == urlSet && |r.0| < |urls|))
  {
    var popped := TakeLast(urls, maxThreads);
    var rest := urls[..|urls| - |popped|];
    var nextUrls := BatchResults(w, popped, urlSet);
    var r := AdmitBasic(rest, urlSet, nextUrls, maxLinks);
    AdmitBasicBounded(rest, urlSet, nextUrls, maxLinks);
    if nextUrls != [] {
      BatchResultsFresh(w, popped, urlSet, nextUrls[0]);
      AdmitBasicGrows(rest, urlSet, nextUrls, maxLinks);
    }
    forall u | u in crawled + popped
      ensures u == root || u in r.1
    {
      if u in popped {
        TakeLastIn(urls, maxThreads, u);
      }
    }
    forall u | u in r.0
      ensures u == root || u in r.1
    {
      var k :| 0 <= k < |r.0| && r.0[k] == u;
      if k < |rest| {
        assert rest[k] in urls;
      }
    }
  }
}

/** The while loop of main in basic_webcrawler.py, over the crawl model above. */
module BasicMain {
  import opened Web
  import opened BasicCrawler

  /** The crawl state of main: `urls`, `url_set`, and (ghost) the URLs crawled so
      far in crawl order. The root, MAX_LINKS, MAX_THREADS and the oracles are
      parameters. */
  class Crawler {
    const w: Oracles
    const root: Url
    const maxLinks: nat
    const maxThreads: nat
    var urls: seq<Url>
    var urlSet: set<Url>
    ghost var crawled: seq<Url>

    /** url_set stays within MAX_LINKS, and every URL ever queued is the root or
        an admitted URL. */
    ghost predicate Valid()
      reads this
    {
      && maxThreads >= 1
      && |urlSet| <= maxLinks
      && Counted(root, urlSet, urls)
      && Counted(root, urlSet, crawled)
    }

    /** Lines 60-64: only the root is queued, and url_set starts empty. */
    constructor (w: Oracles, root: Url, maxLinks: nat, maxThreads: nat)
      requires maxThreads >= 1
      ensures Valid()
      ensures this.w == w && this.root == root && this.maxLinks == maxLinks && this.maxThreads == maxThreads
      ensures urls == [root] && urlSet == {} && crawled == []
    {
      this.w := w;
      this.root := root;
      this.maxLinks := maxLinks;
      this.maxThreads := maxThreads;
      urls := [root];
      urlSet := {};
      crawled := [];
    }

    /** One iteration of the while loop: a batch of pops and crawls against the
        current url_set, then admission of the flattened results. */
    method Batch() returns (popped: seq<Url>)
      requires Valid() && urls != [] && |urlSet| < maxLinks
      modifies this
      ensures Valid()
      ensures popped == TakeLast(old(urls), maxThreads) && popped != []
      ensures crawled == old(crawled) + popped
      ensures old(urlSet) <= urlSet
      ensures (urls, urlSet) == BatchResult(w, maxLinks, maxThreads, old(urls), old(urlSet))
      ensures old(|urlSet|) < |urlSet| || (urlSet == old(urlSet) && |urls| < old(|urls|))
    {
      var urls1, urlSet1;
      popped, urls1, urlSet1 := RunBatch(w, maxLinks, maxThreads, urls, urlSet);
      BatchKeepsInv(w, root, maxLinks, maxThreads, urls, urlSet, crawled);
      urls, urlSet, crawled := urls1, urlSet1, crawled + popped;
    }

    /** The while loop of main: crawl batches until urls is empty or url_set holds
        MAX_LINKS URLs. Each batch either grows url_set or shrinks urls without
        admitting anything, so the loop ends. */
    method Run()
      requires Valid()
      modifies this
      ensures Valid()
      ensures urls == [] || |urlSet| == maxLinks
      ensures old(urlSet) <= urlSet
      ensures |old(crawled)| <= |crawled| && crawled[..|old(crawled)|] == old(crawled)
    {
      while urls != [] && |urlSet| < maxLinks
        invariant Valid()
        invariant old(urlSet) <= urlSet
        invariant |old(crawled)| <= |crawled| && crawled[..|old(crawled)|] == old(crawled)
        decreases maxLinks - |urlSet|, |urls|
      {
        var _ := Batch();
      }
    }
  }
}
