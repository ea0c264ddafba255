/**
 * The command's own logic: the two preprocessors and the validators that
 * sit in front of the deduplicating dispatcher, the order in which DoCrawl
 * stacks the decorators, and how the seed target reaches the swarm. The
 * seed target is a parameter; the URL regular expression is an arbitrary
 * predicate `urlPattern`.
 */
module Spider {
  import opened Wrappers
  import opened DecoratorSpec
  import opened UtilQueue
  import opened UtilDeque
  import opened CrawlerSwarm

  /** The cap DoCrawl puts on the deduplicating dispatcher. */
  const MaxJobs: int := 50

  predicate HasPrefix(s: string, prefix: string) {
    |prefix| <= |s| && s[..|prefix|] == prefix
  }

  /** The characters of the cutset "./". */
  predicate InCutset(c: char) {
    c == '.' || c == '/'
  }

  /** The number of leading characters in the cutset. */
  function LeadingCut(s: string): (k: nat)
    ensures k <= |s|
    ensures forall i :: 0 <= i < k ==> InCutset(s[i])
    ensures k < |s| ==> !InCutset(s[k])
  {
    if s != [] && InCutset(s[0]) then
      var k := 1 + LeadingCut(s[1..]);
      assert forall i :: 1 <= i < k ==> s[i] == s[1..][i - 1];
      k
    else 0
  }

  /** strings.TrimLeft(item, "./"): every leading '.' or '/' removed. */
  function TrimLeading(s: string): (r: string)
    ensures |r| <= |s| && r == s[|s| - |r|..]
    ensures forall i :: 0 <= i < |s| - |r| ==> InCutset(s[i])
    ensures r != [] ==> !InCutset(r[0])
  {
    s[LeadingCut(s)..]
  }

  /** Trimming again changes nothing. */
  lemma {:induction false} TrimLeadingIdempotent(s: string)
    ensures TrimLeading(TrimLeading(s)) == TrimLeading(s)
  {
    var r := TrimLeading(s);
    assert r == [] || !InCutset(r[0]);
  }

  /** The number of trailing slashes. */
  function TrailingSlashes(s: string): (k: nat)
    ensures k <= |s|
    ensures forall i :: |s| - k <= i < |s| ==> s[i] == '/'
    ensures k < |s| ==> s[|s| - k - 1] != '/'
  {
    if s != [] && s[|s| - 1] == '/' then
      var k := 1 + TrailingSlashes(s[..|s| - 1]);
      assert forall i :: |s| - k <= i < |s| - 1 ==> s[i] == s[..|s| - 1][i];
      k
    else 0
  }

  /** strings.TrimRight(target, "/"): every trailing '/' removed. */
  function TrimTrailingSlash(s: string): (r: string)
    ensures |r| <= |s| && r == s[..|r|]
    ensures forall i :: |r| <= i < |s| ==> s[i] == '/'
    ensures r != [] ==> r[|r| - 1] != '/'
  {
    s[..|s| - TrailingSlashes(s)]
  }

  /** The separator DoCrawl's alternative target drops. */
  const Www: string := "www."

  /** An occurrence of the separator starts at index i. */
  predicate OccursAt(s: string, sep: string, i: nat) {
    i + |sep| <= |s| && s[i..i + |sep|] == sep
  }

  /**
   * strings.Join(strings.Split(s, sep), ""): the occurrences of sep found
   * scanning from the left, each search resuming after the last one, are
   * removed.
   */
  function RemoveAll(s: string, sep: string): (r: string)
    requires sep != []
    ensures |r| <= |s|
    decreases |s|
  {
    if |s| < |sep| then s
    else if s[..|sep|] == sep then RemoveAll(s[|sep|..], sep)
    else [s[0]] + RemoveAll(s[1..], sep)
  }

  /** Where the separator does not occur, nothing is removed. */
  lemma {:induction false} RemoveAllNone(s: string, sep: string)
    requires sep != [] && forall i :: 0 <= i < |s| ==> !OccursAt(s, sep, i)
    ensures RemoveAll(s, sep) == s
    decreases |s|
  {
    if |s| >= |sep| {
      assert !OccursAt(s, sep, 0);
      forall i | 0 <= i < |s| - 1
        ensures !OccursAt(s[1..], sep, i)
      {
        assert !OccursAt(s, sep, i + 1);
        if i + |sep| <= |s| - 1 {
          assert s[1..][i..i + |sep|] == s[i + 1..i + 1 + |sep|];
        }
      }
      RemoveAllNone(s[1..], sep);
      assert s == [s[0]] + s[1..];
    }
  }

  /**
   * The second preprocessor. An item starting with "http" is already
   * absolute. Otherwise, with `target` the seed without trailing slashes
   * and `alt` that with "www." removed, an item starting with neither is
   * joined to the target with a '/'.
   */
  function Relativise(seed: string, item: string): (r: string)
    ensures var target := TrimTrailingSlash(seed);
      var alt := RemoveAll(target, Www);
      (r == item <==> HasPrefix(item, "http") || HasPrefix(item, target) || HasPrefix(item, alt)) &&
      (r != item ==> r == target + "/" + item) &&
      (HasPrefix(r, "http") || HasPrefix(r, target) || HasPrefix(r, alt)) &&
      |item| <= |r| && r[|r| - |item|..] == item
  {
    if HasPrefix(item, "http") then item
    else
      var target := TrimTrailingSlash(seed);
      var alt := RemoveAll(target, Www);
      if !(HasPrefix(item, target) || HasPrefix(item, alt)) then
        var r := target + "/" + item;
        assert r[..|target|] == target && r[|r| - |item|..] == item;
        r
      else item
  }

  /** Relativising an already relativised item changes nothing. */
  lemma RelativiseIdempotent(seed: string, item: string)
    ensures Relativise(seed, Relativise(seed, item)) == Relativise(seed, item)
  {
    var r := Relativise(seed, item);
    if r != item && !HasPrefix(r, "http") {
      assert r[..|TrimTrailingSlash(seed)|] == TrimTrailingSlash(seed);
    }
  }

  /**
   * With a seed free of '#', the relativised item is free of '#' exactly
   * when the item is: the first validator judges the link, not the prefix
   * the second preprocessor adds.
   */
  lemma NoFragmentRelativise(seed: string, item: string)
    requires NoFragment(seed)
    ensures NoFragment(Relativise(seed, item)) <==> NoFragment(item)
  {
    var target := TrimTrailingSlash(seed);
    var r := Relativise(seed, item);
    if r != item {
      assert target == seed[..|target|];
      assert NoFragment(target);
      assert r == target + ("/" + item);
    }
  }

  /** A link written "./../x.html" loses its leading dots and slashes. */
  lemma TrimLeadingExample()
    ensures TrimLeading("./../x.html") == "x.html"
  {
    var s := "./../x.html";
    assert s[1..][1..][1..][1..][1..] == "x.html";
    assert LeadingCut("x.html") == 0;
  }

  /** The first validator: the item has no fragment. */
  predicate NoFragment(item: string) {
    '#' !in item
  }

  /** The preprocessors DoCrawl installs, in order. */
  function PreProcessors(seed: string): seq<string -> string> {
    [TrimLeading, (item: string) => Relativise(seed, item)]
  }

  /** The validators DoCrawl installs, in order. */
  function Validators(urlPattern: string -> bool): seq<string -> bool> {
    [NoFragment, urlPattern]
  }

  /** The preprocessors run in the order they are installed: trim first, then relativise. */
  lemma PreProcessorsOrder(seed: string, item: string)
    ensures Compose(PreProcessors(seed), item) == Relativise(seed, TrimLeading(item))
  {
    var ps := PreProcessors(seed);
    assert ps[1..][1..] == [];
    assert ps[0](item) == TrimLeading(item);
    assert ps[1..][0](TrimLeading(item)) == Relativise(seed, TrimLeading(item));
    assert Compose(ps, item) == Compose(ps[1..][1..], ps[1..][0](ps[0](item)));
  }

  /** The validators accept exactly the items without '#' that match the URL pattern. */
  lemma ValidatorsMeaning(urlPattern: string -> bool, item: string)
    ensures AllValid(Validators(urlPattern), item) <==> NoFragment(item) && urlPattern(item)
  {
    var vs := Validators(urlPattern);
    assert AllValid(vs, item) <==> vs[0](item) && vs[1](item);
  }

  /**
   * What the validating layer passes on to deduplication for one item, if
   * anything: the item trimmed, then relativised, exactly when that has no
   * '#' and matches the URL pattern.
   */
  function Prepare(seed: string, urlPattern: string -> bool, item: string): (r: Option<string>)
    ensures var p := Relativise(seed, TrimLeading(item));
      r == (if NoFragment(p) && urlPattern(p) then Some(p) else None)
  {
    PreProcessorsOrder(seed, item);
    var p := Compose(PreProcessors(seed), item);
    ValidatorsMeaning(urlPattern, p);
    if AllValid(Validators(urlPattern), p) then Some(p) else None
  }

  /** The items that reach deduplication, in dispatch order. */
  function Prepared(seed: string, urlPattern: string -> bool, items: seq<string>): (r: seq<string>)
    ensures |r| <= |items|
  {
    if items == [] then []
    else
      var last := Prepare(seed, urlPattern, items[|items| - 1]);
      Prepared(seed, urlPattern, items[..|items| - 1]) + (if last.Some? then [last.value] else [])
  }

  /** Every item that reaches deduplication is a preprocessed item without a fragment that matches the pattern. */
  lemma {:induction false} PreparedFrom(seed: string, urlPattern: string -> bool, items: seq<string>, x: string)
    requires x in Prepared(seed, urlPattern, items)
    ensures NoFragment(x) && urlPattern(x)
    ensures exists i :: 0 <= i < |items| && x == Relativise(seed, TrimLeading(items[i]))
    decreases |items|
  {
    var n := |items| - 1;
    var last := Prepare(seed, urlPattern, items[n]);
    if x in Prepared(seed, urlPattern, items[..n]) {
      PreparedFrom(seed, urlPattern, items[..n], x);
      var i :| 0 <= i < n && x == Relativise(seed, TrimLeading(items[..n][i]));
      assert items[..n][i] == items[i];
    } else {
      assert last == Some(x);
    }
  }

  /** The jobs that reach the queue when `items` are dispatched through the chain, starting from an empty history. */
  function Dispatched(seed: string, urlPattern: string -> bool, items: seq<string>): seq<string> {
    AdmitAll([], Cap(MaxJobs), Prepared(seed, urlPattern, items))
  }

  /**
   * What the chain guarantees the queue: at most fifty jobs, none twice,
   * each without a fragment, matching the pattern, and absolute or rooted
   * at the target.
   */
  lemma ChainGuarantees(seed: string, urlPattern: string -> bool, items: seq<string>)
    ensures var d := Dispatched(seed, urlPattern, items);
      |d| <= MaxJobs && NoDuplicates(d) &&
      forall x :: x in d ==> (NoFragment(x) && urlPattern(x) &&
        var target := TrimTrailingSlash(seed);
        HasPrefix(x, "http") || HasPrefix(x, target) || HasPrefix(x, RemoveAll(target, Www)))
  {
    var ps := Prepared(seed, urlPattern, items);
    AdmitAllWithinCap([], MaxJobs, ps);
    AdmitAllNoDuplicates([], Cap(MaxJobs), ps);
    forall x | x in Dispatched(seed, urlPattern, items)
      ensures NoFragment(x) && urlPattern(x)
      ensures var target := TrimTrailingSlash(seed);
        HasPrefix(x, "http") || HasPrefix(x, target) || HasPrefix(x, RemoveAll(target, Www))
    {
      AdmitAllFrom([], Cap(MaxJobs), ps, x);
      PreparedFrom(seed, urlPattern, items, x);
      var i :| 0 <= i < |items| && x == Relativise(seed, TrimLeading(items[i]));
    }
  }

  /**
   * One dispatch through the stacked decorators: the preprocessors, then
   * the validators, then the deduplicator in front of the queue.
   */
  method DispatchThroughChain(dedup: DeDuplicatingDispatcher<string>, seed: string, urlPattern: string -> bool, item: string)
    requires dedup.Valid()
    modifies dedup, dedup.dispatcher
    ensures dedup.Valid() && dedup.maxJobs == old(dedup.maxJobs)
    ensures var p := Prepare(seed, urlPattern, item);
      dedup.previousItems == (if p.Some? then Admit(old(dedup.previousItems), Cap(dedup.maxJobs), p.value) else old(dedup.previousItems)) &&
      dedup.dispatcher.received == old(dedup.dispatcher.received) + dedup.previousItems[|old(dedup.previousItems)|..]
  {
    var p := TrimLeading(item);
    p := Relativise(seed, p);
    if NoFragment(p) && urlPattern(p) {
      dedup.Dispatch(p);
    }
  }

  /** A run of dispatches through the chain: the history is the one Admit gives the prepared items. */
  method DispatchAllThroughChain(dedup: DeDuplicatingDispatcher<string>, seed: string, urlPattern: string -> bool, items: seq<string>)
    requires dedup.Valid()
    modifies dedup, dedup.dispatcher
    ensures dedup.Valid() && dedup.maxJobs == old(dedup.maxJobs)
    ensures dedup.previousItems == AdmitAll(old(dedup.previousItems), Cap(dedup.maxJobs), Prepared(seed, urlPattern, items))
  {
    for i := 0 to |items|
      invariant dedup.Valid() && dedup.maxJobs == old(dedup.maxJobs)
      invariant dedup.previousItems == AdmitAll(old(dedup.previousItems), Cap(dedup.maxJobs), Prepared(seed, urlPattern, items[..i]))
    {
      assert items[..i + 1][..i] == items[..i];
      ghost var p := Prepare(seed, urlPattern, items[i]);
      ghost var before := Prepared(seed, urlPattern, items[..i]);
      assert Prepared(seed, urlPattern, items[..i + 1]) == before + (if p.Some? then [p.value] else []);
      ghost var h := dedup.previousItems;
      if p.Some? {
        AdmitAllSnoc(old(dedup.previousItems), Cap(dedup.maxJobs), before, p.value);
      }
      DispatchThroughChain(dedup, seed, urlPattern, items[i]);
      assert dedup.previousItems == (if p.Some? then Admit(h, Cap(dedup.maxJobs), p.value) else h);
      if p.None? {
        assert before + [] == before;
      }
    }
    assert items[..|items|] == items;
  }

  /**
   * DoCrawl's wiring: the deduplicator capped at fifty in front of the
   * queue, and the swarm with the seed target alone in its deque. The seed
   * is put in the deque directly, so the deduplicator's history stays empty.
   */
  method DoCrawl(seed: string, spawner: Spawner) returns (swarm: Swarm, dedup: DeDuplicatingDispatcher<string>)
    ensures fresh(dedup) && dedup.Valid() && dedup.maxJobs == MaxJobs && dedup.previousItems == []
    ensures fresh(swarm) && swarm.Valid() && swarm.spawner == spawner && swarm.jobs.members == [seed]
  {
    var sink := new Sink<string>();
    dedup := new DeDuplicatingDispatcher<string>.WithDeDuplication(sink);
    var _ := dedup.SetMaxJobs(MaxJobs);
    swarm := new Swarm.NewSwarm(spawner);
    var _ := swarm.SeedJobs([seed]);
  }

  /**
   * Because the seed never enters the history, a page linking back to an
   * absolute seed that passes the validators gets it dispatched, and so
   * crawled, a second time.
   */
  lemma SeedDispatchedAgain(seed: string, urlPattern: string -> bool)
    requires HasPrefix(seed, "http") && NoFragment(seed) && urlPattern(seed)
    ensures Dispatched(seed, urlPattern, [seed]) == [seed]
  {
    SeedPrepared(seed, urlPattern);
    assert Admit([], Cap(MaxJobs), seed) == [seed];
    assert AdmitAll([], Cap(MaxJobs), [seed]) == AdmitAll([seed], Cap(MaxJobs), []);
  }

  /** An absolute seed without a fragment that matches the pattern passes the preprocessors and validators unchanged. */
  lemma SeedPrepared(seed: string, urlPattern: string -> bool)
    requires HasPrefix(seed, "http") && NoFragment(seed) && urlPattern(seed)
    ensures Prepared(seed, urlPattern, [seed]) == [seed]
  {
    assert !InCutset(seed[0]) by {
      assert seed[..4][0] == 'h';
    }
    assert TrimLeading(seed) == seed;
    assert Prepare(seed, urlPattern, seed) == Some(seed);
    assert [seed][..0] == [];
  }
}
