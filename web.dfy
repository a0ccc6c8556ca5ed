/** Vocabulary shared by both crawlers: URLs, the optional values the Python code
    writes as None, the oracles that stand for the network, the HTML parser and the
    URL validator, and a few facts about sequences. */
module Web {

  /** A URL is identified by its exact string form; nothing is canonicalised. */
  type Url = string

  datatype Option<T> = None | Some(value: T)

  /** The world a crawl runs against.
      - hrefs(u): the `href` attribute of every anchor of page u, in document order,
        None for an anchor without one (BeautifulSoup's `a.get('href')`);
      - valid(s): the URL validator's verdict on s (`validators.url`);
      - robots(u): None when the robots.txt request for u failed, otherwise
        Some(b) with b the parser's `is_allowed('*', u)` answer. */
  datatype Oracles = Oracles(
    hrefs: Url -> seq<Option<string>>,
    valid: string -> bool,
    robots: Url -> Option<bool>)

  /** No element occurs twice: each element is absent from the part before it. */
  predicate NoDups<T(==)>(s: seq<T>)
    decreases |s|
  {
    s == [] || (s[|s| - 1] !in s[..|s| - 1] && NoDups(s[..|s| - 1]))
  }

  /** Appending x keeps a sequence duplicate-free exactly when x is new. */
  lemma NoDupsAppend<T>(s: seq<T>, x: T)
    ensures NoDups(s + [x]) <==> NoDups(s) && x !in s
  {
    assert (s + [x])[..|s|] == s;
  }

  /** The elements of s, as a set. */
  function Elems<T>(s: seq<T>): set<T> {
    if s == [] then {} else {s[0]} + Elems(s[1..])
  }

  lemma ElemsCons<T>(u: T, t: seq<T>)
    ensures Elems([u] + t) == {u} + Elems(t)
  {
    assert ([u] + t)[1..] == t;
  }

  /** How many times x occurs in s. */
  function Count<T(==)>(s: seq<T>, x: T): nat {
    multiset(s)[x]
  }

  lemma CountCons<T>(u: T, t: seq<T>, x: T)
    ensures Count([u] + t, x) == (if x == u then 1 else 0) + Count(t, x)
  {
    assert multiset([u] + t) == multiset([u]) + multiset(t);
  }

  /** The index of the first occurrence of x in s, or |s| when x does not occur. */
  function IndexOf<T(==)>(s: seq<T>, x: T): (k: nat)
    ensures k <= |s|
    ensures k < |s| <==> x in s
    ensures k < |s| ==> s[k] == x
    ensures forall j :: 0 <= j < k ==> s[j] != x
  {
    if s == [] then 0
    else if s[0] == x then 0
    else 1 + IndexOf(s[1..], x)
  }

  /** Appending an element does not move the first occurrence of anything already
      present, and a new element is first found at the end. */
  lemma {:induction false} IndexOfAppend<T>(s: seq<T>, y: T, x: T)
    ensures x in s ==> IndexOf(s + [y], x) == IndexOf(s, x)
    ensures x !in s && x == y ==> IndexOf(s + [y], x) == |s|
  {
    if s != [] && s[0] != x {
      assert (s + [y])[1..] == s[1..] + [y];
      IndexOfAppend(s[1..], y, x);
    }
  }

  /** How many of `links` an admission loop handles before it stops, when the
      set of known URLs starts as `keys`, each handled link joins it, and the loop
      stops at the first link met once the set holds cap URLs. */
  function Handled(keys: set<Url>, links: seq<Url>, cap: nat): (n: nat)
    ensures n <= |links|
    decreases |links|
  {
    if links == [] || |keys| == cap then 0
    else 1 + Handled(keys + {links[0]}, links[1..], cap)
  }

  /** Admission stops early only when the set is full: once it stops with links
      left, the handled links have filled it to cap URLs. */
  lemma {:induction false} HandledStopsWhenFull(keys: set<Url>, links: seq<Url>, cap: nat)
    requires |keys| <= cap
    ensures Handled(keys, links, cap) < |links| ==> |keys + Elems(links[..Handled(keys, links, cap)])| == cap
    decreases |links|
  {
    if links == [] || |keys| == cap {
      assert links[..0] == [];
      assert keys + Elems([]) == keys;
    } else {
      var u := links[0];
      var m := Handled(keys + {u}, links[1..], cap);
      CardAddOne(keys, u);
      HandledUnfold(keys, links, cap);
      HandledStopsWhenFull(keys + {u}, links[1..], cap);
      ElemsCons(u, links[1..][..m]);
      assert keys + ({u} + Elems(links[1..][..m])) == keys + {u} + Elems(links[1..][..m]);
    }
  }

  /** Before each handled link the set still had room. */
  lemma {:induction false} HandledHadRoom(keys: set<Url>, links: seq<Url>, cap: nat, m: nat)
    requires |keys| <= cap && m < Handled(keys, links, cap)
    ensures |keys + Elems(links[..m])| < cap
    decreases m
  {
    var u := links[0];
    HandledUnfold(keys, links, cap);
    if m == 0 {
      assert links[..m] == [];
      assert keys + Elems([]) == keys;
    } else {
      CardAddOne(keys, u);
      HandledHadRoom(keys + {u}, links[1..], cap, m - 1);
      TakeCons(links, m);
      ElemsCons(u, links[1..][..m - 1]);
      assert keys + ({u} + Elems(links[1..][..m - 1])) == keys + {u} + Elems(links[1..][..m - 1]);
    }
  }

  /** The first m elements are the first one followed by the first m - 1 of the rest. */
  lemma TakeCons<T>(s: seq<T>, m: nat)
    requires 0 < m <= |s|
    ensures s[..m] == [s[0]] + s[1..][..m - 1]
  {
  }

  /** Adding one element grows a set by one exactly when the element is new. */
  lemma CardAddOne<T>(s: set<T>, u: T)
    ensures |s + {u}| == if u in s then |s| else |s| + 1
  {
    if u in s {
      assert s + {u} == s;
    }
  }

  /** With room and a link left, the first link is handled and the count goes on
      from the rest. */
  lemma HandledUnfold(keys: set<Url>, links: seq<Url>, cap: nat)
    requires links != [] && |keys| != cap
    ensures Handled(keys, links, cap) == 1 + Handled(keys + {links[0]}, links[1..], cap)
    ensures links[..Handled(keys, links, cap)] == [links[0]] + links[1..][..Handled(keys + {links[0]}, links[1..], cap)]
  {
  }
}
