/** How refreshes act on what readers see: lookups after a refresh, refreshes of
    different providers commuting, and repeated refreshes of one provider. */
module CachingProperties {
  import opened Wrappers
  import opened ServiceTypes
  import opened Caching

  /** A failed fetch keeps every lookup as it was (stale content stays
      available) and marks only `p` as failing. */
  lemma FailedFetchKeepsContent<C>(s: State<C>, p: Provider, a: Address)
    requires a.index >= 0
    ensures ContentItem(ApplyFetch(s, p, FetchFailed), a) == ContentItem(s, a)
    ensures Fails(ApplyFetch(s, p, FetchFailed), a.provider) == (a.provider == p || Fails(s, a.provider))
  {
  }

  /** After a successful fetch, lookups for `p` read the fetched list and
      lookups for any other provider are unchanged. */
  lemma FetchedContentIsServed<C>(s: State<C>, p: Provider, items: seq<Ref<C>>, a: Address)
    requires a.index >= 0
    ensures a.provider == p ==>
      ContentItem(ApplyFetch(s, p, Fetched(items)), a)
        == (if a.index < |items| then Deref(items[a.index]) else EmptyPlaceholder)
    ensures a.provider != p ==> ContentItem(ApplyFetch(s, p, Fetched(items)), a) == ContentItem(s, a)
    ensures Fails(ApplyFetch(s, p, Fetched(items)), a.provider) == (a.provider != p && Fails(s, a.provider))
  {
    assert ListOf(ApplyFetch(s, p, Fetched(items)), p) == items;
  }

  /** Refreshes of two different providers give the same cache in either order,
      so the order in which independent refreshes complete does not matter. */
  lemma UpdatesCommute<C>(c: Cacher<C>, p: Provider, cp: ProviderConfig<C>, tp: int,
                          q: Provider, cq: ProviderConfig<C>, tq: int)
    requires p != q
    ensures UpdateProvider(UpdateProvider(c, p, cp, tp), q, cq, tq)
         == UpdateProvider(UpdateProvider(c, q, cq, tq), p, cp, tp)
  {
    if cp.client.Some? && cq.client.Some? {
      var op := cp.client.value(cp.userIp, cp.length, tp);
      var oq := cq.client.value(cq.userIp, cq.length, tq);
      FetchesCommute(c.state, p, op, q, oq);
      UpdateCommutes(c.lastUpdate, p, tp, q, tq);
      var pq := Cacher(ApplyFetch(ApplyFetch(c.state, p, op), q, oq), c.lastUpdate[p := tp][q := tq]);
      assert UpdateProvider(c, p, cp, tp) == Cacher(ApplyFetch(c.state, p, op), c.lastUpdate[p := tp]);
      assert UpdateProvider(c, q, cq, tq) == Cacher(ApplyFetch(c.state, q, oq), c.lastUpdate[q := tq]);
      assert UpdateProvider(UpdateProvider(c, p, cp, tp), q, cq, tq) == pq;
    }
  }

  /** The state changes of fetches for two different providers commute. */
  lemma FetchesCommute<C>(s: State<C>, p: Provider, op: FetchOutcome<C>, q: Provider, oq: FetchOutcome<C>)
    requires p != q
    ensures ApplyFetch(ApplyFetch(s, p, op), q, oq) == ApplyFetch(ApplyFetch(s, q, oq), p, op)
  {
    UpdateCommutes(s.fails, p, op.FetchFailed?, q, oq.FetchFailed?);
    if op.Fetched? && oq.Fetched? {
      UpdateCommutes(s.content, p, op.items, q, oq.items);
    }
  }

  lemma UpdateCommutes<K, V>(m: map<K, V>, p: K, a: V, q: K, b: V)
    requires p != q
    ensures m[p := a][q := b] == m[q := b][p := a]
  {
  }

  /** The latest successful refresh of a provider decides its content and flag,
      whatever the refresh before it did. */
  lemma LastSuccessWins<C>(s: State<C>, p: Provider, earlier: FetchOutcome<C>, items: seq<Ref<C>>)
    ensures ApplyFetch(ApplyFetch(s, p, earlier), p, Fetched(items)) == ApplyFetch(s, p, Fetched(items))
  {
    var mid := ApplyFetch(s, p, earlier);
    assert ApplyFetch(mid, p, Fetched(items)) == State(mid.content[p := items], mid.fails[p := false]);
    assert ApplyFetch(s, p, Fetched(items)) == State(s.content[p := items], s.fails[p := false]);
    match earlier
    case FetchFailed =>
      UpdateTwice(s.fails, p, true, false);
    case Fetched(e) =>
      UpdateTwice(s.content, p, e, items);
      UpdateTwice(s.fails, p, false, false);
  }

  lemma UpdateTwice<K, V>(m: map<K, V>, p: K, a: V, b: V)
    ensures m[p := a][p := b] == m[p := b]
  {
  }

  /** Repeated failed refreshes change nothing beyond the first one. */
  lemma RepeatedFailureIdempotent<C>(s: State<C>, p: Provider)
    ensures ApplyFetch(ApplyFetch(s, p, FetchFailed), p, FetchFailed) == ApplyFetch(s, p, FetchFailed)
  {
    assert ApplyFetch(ApplyFetch(s, p, FetchFailed), p, FetchFailed).fails == ApplyFetch(s, p, FetchFailed).fails;
  }

  /** Under one fixed configuration a failing provider can recover: a client
      that fails at the first refresh and answers at the next one leaves the
      provider healthy and serving the new list. */
  lemma RecoveryExample()
    ensures var client: Client<string> := (ip: string, length: int, now: int) =>
                if now == 0 then FetchFailed else Fetched([Ptr("fresh")]);
            var config := ProviderConfig(10, "ip", Some(client));
            var first := UpdateProvider(NewCacher(), "p1", config, 0);
            var second := UpdateProvider(first, "p1", config, 1);
            && Fails(first.state, "p1")
            && !Fails(second.state, "p1")
            && ContentItem(second.state, Address("p1", 0)) == Item("fresh")
  {
  }
}
