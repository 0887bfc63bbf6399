/** The cache that keeps a URL from being handled twice within a few seconds. */
module UrlCache {

  type Url = string

  /** `openUrlClusterMaxElapsedTime` in nanoseconds, the resolution of the clock. */
  const MAX_ELAPSED := 5 * 1_000_000_000

  /** A call for `url`: the first clock reading, the reading taken when each remembered
      entry was looked at, and the one taken when the URL is stored. */
  datatype Call = Call(url: Url, first: int, readings: map<Url, int>, storedAt: int) {
    function ReadingOf(u: Url): int { if u in readings then readings[u] else first }

    predicate InOrder() {
      first <= storedAt && forall u :: u in readings ==> first <= readings[u] <= storedAt
    }
  }

  function Prune(cache: map<Url, int>, c: Call): map<Url, int> {
    map u | u in cache && c.ReadingOf(u) - cache[u] <= MAX_ELAPSED :: cache[u]
  }

  predicate Accepts(cache: map<Url, int>, c: Call) { c.url !in Prune(cache, c) }

  function Handle(cache: map<Url, int>, c: Call): map<Url, int> {
    if Accepts(cache, c) then Prune(cache, c)[c.url := c.storedAt] else Prune(cache, c)
  }

  function CacheAfter(calls: seq<Call>): map<Url, int> {
    if calls == [] then map[] else Handle(CacheAfter(calls[..|calls| - 1]), calls[|calls| - 1])
  }

  // ----- The unpruned history -----

  /** The i-th call was accepted. */
  predicate Accepted(calls: seq<Call>, i: nat)
    requires i < |calls|
  {
    Accepts(CacheAfter(calls[..i]), calls[i])
  }

  /** The clock does not go back, within a call or from one call to the next. */
  predicate ClockInOrder(calls: seq<Call>) {
    && (forall i :: 0 <= i < |calls| ==> calls[i].InOrder())
    && (forall i, j :: 0 <= i < j < |calls| ==> calls[i].storedAt <= calls[j].first)
  }

  /** Every earlier acceptance of the URL is more than the limit old. */
  ghost predicate FreshByHistory(calls: seq<Call>, n: nat)
    requires n < |calls|
  {
    forall i :: 0 <= i < n && calls[i].url == calls[n].url && Accepted(calls, i) ==>
      calls[n].ReadingOf(calls[n].url) - calls[i].storedAt > 5_000_000_000
  }

  /** What the cache remembers of the history: its entries are acceptances, and an
      acceptance it has forgotten or replaced is too old or followed by a later one. */
  ghost predicate Remembers(calls: seq<Call>, cache: map<Url, int>) {
    && (forall u :: u in cache ==>
         exists i :: 0 <= i < |calls| && Accepted(calls, i) && calls[i].url == u && calls[i].storedAt == cache[u])
    && (forall i :: 0 <= i < |calls| && Accepted(calls, i) ==>
         (calls[i].url in cache && calls[i].storedAt <= cache[calls[i].url])
         || calls[|calls| - 1].storedAt - calls[i].storedAt > MAX_ELAPSED)
  }

  lemma AcceptedFront(calls: seq<Call>, n: nat, i: nat)
    requires i < n <= |calls|
    ensures Accepted(calls[..n], i) <==> Accepted(calls, i)
  {
    assert calls[..n][..i] == calls[..i];
  }

  lemma LastAccepted(calls: seq<Call>)
    requires calls != []
    ensures var front, c := calls[..|calls| - 1], calls[|calls| - 1];
      && CacheAfter(calls) == Handle(CacheAfter(front), c)
      && (Accepted(calls, |calls| - 1) <==> Accepts(CacheAfter(front), c))
  {
  }

  lemma EntryAccepted(calls: seq<Call>, u: Url) returns (i: nat)
    requires calls != [] && Remembers(calls[..|calls| - 1], CacheAfter(calls[..|calls| - 1])) && u in CacheAfter(calls)
    ensures i < |calls| && Accepted(calls, i) && calls[i].url == u && calls[i].storedAt == CacheAfter(calls)[u]
  {
    hide CacheAfter, Accepted;
    var n := |calls| - 1;
    var front, c := calls[..n], calls[n];
    LastAccepted(calls);
    if u == c.url && Accepts(CacheAfter(front), c) {
      i := n;
    } else {
      i :| 0 <= i < n && Accepted(front, i) && front[i].url == u && front[i].storedAt == CacheAfter(front)[u];
      AcceptedFront(calls, n, i);
    }
  }

  lemma AcceptanceRemembered(calls: seq<Call>, i: nat)
    requires calls != [] && ClockInOrder(calls) && i < |calls| && Accepted(calls, i)
    requires Remembers(calls[..|calls| - 1], CacheAfter(calls[..|calls| - 1]))
    ensures var after := CacheAfter(calls);
      (calls[i].url in after && calls[i].storedAt <= after[calls[i].url])
      || calls[|calls| - 1].storedAt - calls[i].storedAt > MAX_ELAPSED
  {
    hide CacheAfter, Accepted;
    var n := |calls| - 1;
    var front, c := calls[..n], calls[n];
    LastAccepted(calls);
    if i < n {
      AcceptedFront(calls, n, i);
      var before, u := CacheAfter(front), calls[i].url;
      assert front[i] == calls[i] && front[n - 1] == calls[n - 1];
      ReadingBetween(c, u);
      if u in before && calls[i].storedAt <= before[u] {
        assert c.ReadingOf(u) - before[u] > MAX_ELAPSED ==> c.storedAt - calls[i].storedAt > MAX_ELAPSED;
      }
    }
  }

  lemma ReadingBetween(c: Call, u: Url)
    requires c.InOrder()
    ensures c.first <= c.ReadingOf(u) <= c.storedAt
  {
  }

  lemma {:induction false} CacheRemembers(calls: seq<Call>)
    requires ClockInOrder(calls)
    ensures Remembers(calls, CacheAfter(calls))
  {
    if calls != [] {
      hide CacheAfter, Accepted;
      CacheRemembers(calls[..|calls| - 1]);
      forall u | u in CacheAfter(calls)
        ensures exists i ::
          0 <= i < |calls| && Accepted(calls, i) && calls[i].url == u && calls[i].storedAt == CacheAfter(calls)[u]
      {
        var i := EntryAccepted(calls, u);
      }
      forall i | 0 <= i < |calls| && Accepted(calls, i)
        ensures (calls[i].url in CacheAfter(calls) && calls[i].storedAt <= CacheAfter(calls)[calls[i].url])
                || calls[|calls| - 1].storedAt - calls[i].storedAt > MAX_ELAPSED
      {
        AcceptanceRemembered(calls, i);
      }
    }
  }

  lemma EntryIsAcceptance(calls: seq<Call>, n: nat) returns (k: nat)
    requires ClockInOrder(calls) && n < |calls| && calls[n].url in CacheAfter(calls[..n])
    ensures k < n && calls[k].url == calls[n].url && Accepted(calls, k)
    ensures calls[k].storedAt == CacheAfter(calls[..n])[calls[n].url]
  {
    hide CacheAfter, Accepted;
    var front, u := calls[..n], calls[n].url;
    CacheRemembers(front);
    k :| 0 <= k < |front| && Accepted(front, k) && front[k].url == u && front[k].storedAt == CacheAfter(front)[u];
    AcceptedFront(calls, n, k);
  }

  lemma AcceptanceIsKnown(calls: seq<Call>, n: nat, i: nat)
    requires ClockInOrder(calls) && i < n < |calls| && calls[i].url == calls[n].url && Accepted(calls, i)
    ensures var cache, u := CacheAfter(calls[..n]), calls[n].url;
      (u in cache && calls[i].storedAt <= cache[u]) || calls[n].ReadingOf(u) - calls[i].storedAt > MAX_ELAPSED
  {
    hide CacheAfter, Accepted;
    var front := calls[..n];
    CacheRemembers(front);
    AcceptedFront(calls, n, i);
    assert front[i] == calls[i] && front[n - 1] == calls[n - 1];
  }

  /** For every run of calls, the pruned cache accepts a URL exactly when the unpruned
      history would: its last acceptance is more than five seconds old. */
  lemma CacheRefinesHistory(calls: seq<Call>, n: nat)
    requires ClockInOrder(calls) && n < |calls|
    ensures Accepted(calls, n) <==> FreshByHistory(calls, n)
  {
    var cache, c := CacheAfter(calls[..n]), calls[n];
    assert Accepted(calls, n) <==> c.url in cache ==> c.ReadingOf(c.url) - cache[c.url] > MAX_ELAPSED;
    hide CacheAfter, Accepted, ClockInOrder;
    if c.url in cache {
      var k := EntryIsAcceptance(calls, n);
    }
    forall i: nat | i < n && calls[i].url == c.url && Accepted(calls, i)
      ensures (c.url in cache && calls[i].storedAt <= cache[c.url])
              || c.ReadingOf(c.url) - calls[i].storedAt > MAX_ELAPSED
    {
      AcceptanceIsKnown(calls, n, i);
    }
  }

  /** After a call every entry is at most five seconds older than its first reading. */
  lemma EntriesAreRecent(cache: map<Url, int>, c: Call, u: Url)
    requires c.InOrder() && u in Handle(cache, c)
    ensures c.first - Handle(cache, c)[u] <= 5_000_000_000
  {
  }

  // ----- Pruning entry by entry -----

  /** What is left of `was` when all but the entries in `todo` have been looked at. */
  function Pruned(was: map<Url, int>, todo: set<Url>, c: Call): map<Url, int> {
    map u | u in was && (u in todo || c.ReadingOf(u) - was[u] <= MAX_ELAPSED) :: was[u]
  }

  lemma PrunedEnds(was: map<Url, int>, c: Call)
    ensures Pruned(was, was.Keys, c) == was && Pruned(was, {}, c) == Prune(was, c)
  {
  }

  lemma PrunedNext(was: map<Url, int>, todo: set<Url>, c: Call, u: Url, now: int)
    requires u in todo && todo <= was.Keys && c.readings.Keys == was.Keys - todo
    ensures var next := Pruned(was, todo - {u}, c.(readings := c.readings[u := now], storedAt := now));
      && u in Pruned(was, todo, c) && Pruned(was, todo, c)[u] == was[u]
      && next == if now - was[u] > MAX_ELAPSED then Pruned(was, todo, c) - {u} else Pruned(was, todo, c)
  {
  }

  lemma ReadLater(c: Call, u: Url, now: int)
    requires c.InOrder() && c.storedAt <= now
    ensures c.(readings := c.readings[u := now], storedAt := now).InOrder() && c.(storedAt := now).InOrder()
  {
  }

  lemma StoredLater(was: map<Url, int>, c: Call, now: int)
    ensures Prune(was, c.(storedAt := now)) == Prune(was, c)
  {
  }

  // ----- The object -----

  class UrlHandler {
    const clock: nat -> int
    var taken: nat
    var openUrls: map<Url, int>
    /** The URLs passed on to the server. */
    var requested: seq<Url>

    ghost predicate Ticking()
      reads this`taken
    {
      forall i, j :: taken <= i <= j ==> clock(i) <= clock(j)
    }

    /** Prunes entry by entry, in any order, each at its own clock reading; then drops or
        stores the URL. `c` collects the readings. */
    method HandleMEGAurl(url: Url) returns (ghost c: Call)
      requires Ticking()
      modifies this
      ensures Ticking() && c.url == url && c.InOrder()
      ensures clock(old(taken)) == c.first && c.storedAt <= clock(taken)
      ensures openUrls == Handle(old(openUrls), c)
      ensures requested == old(requested) + if Accepts(old(openUrls), c) then [url] else []
    {
      c := Call(url, clock(taken), map[], clock(taken));
      var todo := openUrls.Keys;
      PrunedEnds(openUrls, c);
      hide Pruned, Prune, Call.InOrder, Call.ReadingOf;
      while todo != {}
        invariant Ticking() && taken >= old(taken) && c.InOrder() && c.url == url
        invariant c.first == clock(old(taken)) && c.storedAt <= clock(taken)
        invariant todo <= old(openUrls).Keys && c.readings.Keys == old(openUrls).Keys - todo
        invariant openUrls == Pruned(old(openUrls), todo, c)
        invariant requested == old(requested)
        decreases todo
      {
        var u :| u in todo;
        PrunedNext(old(openUrls), todo, c, u, clock(taken));
        ReadLater(c, u, clock(taken));
        var elapsed := clock(taken) - openUrls[u];
        c := c.(readings := c.readings[u := clock(taken)], storedAt := clock(taken));
        taken := taken + 1;
        if elapsed > MAX_ELAPSED { openUrls := openUrls - {u}; }
        todo := todo - {u};
      }
      PrunedEnds(old(openUrls), c);
      if url in openUrls { return; }
      StoredLater(old(openUrls), c, clock(taken));
      ReadLater(c, url, clock(taken));
      c := c.(storedAt := clock(taken));
      openUrls := openUrls[url := clock(taken)];
      taken := taken + 1;
      requested := requested + [url];
    }
  }
}
