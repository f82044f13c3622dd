/** The expiring cache's state (cache.go) as an immutable value: per provider a
    content list and a fail flag, the snapshot copy handed to readers, and the
    state transition a provider refresh performs. Locks, goroutines and timers
    are not part of the model. */
module Caching {
  import opened Wrappers
  import opened ServiceTypes

  /** One slot of a stored content list: a Go `*ContentItem`, which may be nil. */
  datatype Ref<C> = Null | Ptr(item: C)

  /** What a content lookup returns: a stored item, the freshly allocated empty
      item the source hands out for an index past the end of the list, or nil
      (a nil slot inside the list). */
  datatype Lookup<C> = Item(item: C) | EmptyPlaceholder | Nil

  /** `inMemoryState`: provider -> content list, provider -> fail flag. */
  datatype State<C> = State(content: map<Provider, seq<Ref<C>>>, fails: map<Provider, bool>)

  /** `Fails`: the stored flag, or Go's zero value `false` for a provider that
      has no entry. */
  function Fails<C>(s: State<C>, p: Provider): (failing: bool)
    ensures p in s.fails ==> failing == s.fails[p]
    ensures p !in s.fails ==> !failing
  {
    p in s.fails && s.fails[p]
  }

  /** The content list of `p`; a missing entry reads as Go's nil slice. */
  function ListOf<C>(s: State<C>, p: Provider): seq<Ref<C>>
  {
    if p in s.content then s.content[p] else []
  }

  /** Dereferencing a stored slot. */
  function Deref<C>(r: Ref<C>): (l: Lookup<C>)
    ensures !l.EmptyPlaceholder?
    ensures l.Nil? <==> r.Null?
    ensures l.Item? ==> r == Ptr(l.item)
  {
    match r
    case Null => Nil
    case Ptr(c) => Item(c)
  }

  /** `ContentItem`: an index inside the provider's list yields exactly the
      stored slot; an index at or past its end (also for a provider with no
      list) yields the empty placeholder and never a list element. The source
      has no guard for negative indices, which would panic. */
  function ContentItem<C>(s: State<C>, addr: Address): (r: Lookup<C>)
    requires addr.index >= 0
    ensures addr.index < |ListOf(s, addr.provider)| ==> r == Deref(ListOf(s, addr.provider)[addr.index])
    ensures r.EmptyPlaceholder? <==> addr.index >= |ListOf(s, addr.provider)|
    ensures r.Item? ==>
      addr.index < |ListOf(s, addr.provider)| && ListOf(s, addr.provider)[addr.index] == Ptr(r.item)
    ensures r.Nil? ==>
      addr.index < |ListOf(s, addr.provider)| && ListOf(s, addr.provider)[addr.index] == Null
  {
    var content := ListOf(s, addr.provider);
    if addr.index >= |content| then EmptyPlaceholder
    else Deref(content[addr.index])
  }

  /** `copyContentItems`: a new list of the same length holding the same slots
      in the same positions. */
  method CopyContentItems<C>(contentItems: seq<Ref<C>>) returns (out: seq<Ref<C>>)
    ensures |out| == |contentItems|
    ensures forall i :: 0 <= i < |contentItems| ==> out[i] == contentItems[i]
  {
    out := seq(|contentItems|, _ => Null);
    var i := 0;
    while i < |contentItems|
      invariant 0 <= i <= |contentItems|
      invariant |out| == |contentItems|
      invariant forall j :: 0 <= j < i ==> out[j] == contentItems[j]
    {
      out := out[i := contentItems[i]];
      i := i + 1;
    }
  }

  /** `copy`: a snapshot with the same providers, the same fail flags and
      element-wise equal content lists, so it equals the state it was taken from. */
  method Copy<C>(ims: State<C>) returns (c: State<C>)
    ensures c.fails.Keys == ims.fails.Keys && c.content.Keys == ims.content.Keys
    ensures forall p :: p in ims.fails ==> c.fails[p] == ims.fails[p]
    ensures forall p :: p in ims.content ==> |c.content[p]| == |ims.content[p]|
    ensures forall p, i :: p in ims.content && 0 <= i < |ims.content[p]| ==> c.content[p][i] == ims.content[p][i]
    ensures c == ims
  {
    var fails: map<Provider, bool> := map[];
    var pending := ims.fails.Keys;
    while pending != {}
      invariant pending <= ims.fails.Keys
      invariant fails.Keys == ims.fails.Keys - pending
      invariant forall p :: p in fails ==> fails[p] == ims.fails[p]
      decreases pending
    {
      var k :| k in pending;
      fails := fails[k := ims.fails[k]];
      pending := pending - {k};
    }
    var content: map<Provider, seq<Ref<C>>> := map[];
    pending := ims.content.Keys;
    while pending != {}
      invariant pending <= ims.content.Keys
      invariant content.Keys == ims.content.Keys - pending
      invariant forall p :: p in content ==> content[p] == ims.content[p]
      decreases pending
    {
      var k :| k in pending;
      var items := CopyContentItems(ims.content[k]);
      assert items == ims.content[k];
      content := content[k := items];
      pending := pending - {k};
    }
    c := State(content, fails);
    assert c.fails == ims.fails;
    assert c.content == ims.content;
  }

  /** The outcome of the provider client's `GetContent` call: the fetched list,
      or an error (any list returned alongside an error is ignored). */
  datatype FetchOutcome<C> = Fetched(items: seq<Ref<C>>) | FetchFailed

  /** The provider client, called with the user IP and the desired length.
      `GetContent` is network I/O whose answer can change from call to call, so
      the client also receives the time of the call, standing for the state of
      the outside world at that moment. */
  type Client<C> = (string, int, int) -> FetchOutcome<C>

  /** The parts of `ProviderConfig` a refresh uses; a nil client is None. */
  datatype ProviderConfig<C> = ProviderConfig(length: int, userIp: string, client: Option<Client<C>>)

  /** The live cache: its state and the time of each provider's last refresh,
      as an abstract timestamp. */
  datatype Cacher<C> = Cacher(state: State<C>, lastUpdate: map<Provider, int>)

  /** `NewTimeExpirationCacher`: empty content, no fail flags, no timestamps. */
  function NewCacher<C>(): (c: Cacher<C>)
    ensures forall p :: !Fails(c.state, p)
    ensures forall a: Address :: a.index >= 0 ==> ContentItem(c.state, a) == EmptyPlaceholder
    ensures c.lastUpdate == map[]
  {
    Cacher(State(map[], map[]), map[])
  }

  /** The state change of one refresh of provider `p`: a failed fetch sets the
      flag and keeps the old content; a successful one clears the flag and
      replaces the list. No other provider's flag or list changes. */
  function ApplyFetch<C>(s: State<C>, p: Provider, outcome: FetchOutcome<C>): (r: State<C>)
    ensures p in r.fails
    ensures Fails(r, p) <==> outcome.FetchFailed?
    ensures outcome.FetchFailed? ==> r.content == s.content
    ensures outcome.Fetched? ==> p in r.content && r.content[p] == outcome.items
    ensures forall q :: q != p ==> (q in r.fails <==> q in s.fails)
    ensures forall q :: q != p && q in s.fails ==> r.fails[q] == s.fails[q]
    ensures forall q :: q != p ==> (q in r.content <==> q in s.content)
    ensures forall q :: q != p && q in s.content ==> r.content[q] == s.content[q]
  {
    match outcome
    case FetchFailed => State(s.content, s.fails[p := true])
    case Fetched(items) => State(s.content[p := items], s.fails[p := false])
  }

  /** `updateProvider`: with a client, fetch with the configured user IP and
      length, apply the outcome and stamp the refresh time; with a nil client,
      nothing changes at all. */
  function UpdateProvider<C>(c: Cacher<C>, p: Provider, config: ProviderConfig<C>, now: int): (r: Cacher<C>)
    ensures config.client.None? ==> r == c
    ensures config.client.Some? ==>
      && r.state == ApplyFetch(c.state, p, config.client.value(config.userIp, config.length, now))
      && p in r.lastUpdate && r.lastUpdate[p] == now
      && (forall q :: q != p ==> (q in r.lastUpdate <==> q in c.lastUpdate))
      && (forall q :: q != p && q in c.lastUpdate ==> r.lastUpdate[q] == c.lastUpdate[q])
  {
    match config.client
    case None => c
    case Some(client) =>
      var outcome := client(config.userIp, config.length, now);
      Cacher(ApplyFetch(c.state, p, outcome), c.lastUpdate[p := now])
  }

  /** `GetState`: a copy of the live state, equal to it, so two snapshots with
      no refresh in between are equal. */
  method GetState<C>(c: Cacher<C>) returns (snapshot: State<C>)
    ensures snapshot == c.state
    ensures forall p :: Fails(snapshot, p) == Fails(c.state, p)
    ensures forall a: Address :: a.index >= 0 ==> ContentItem(snapshot, a) == ContentItem(c.state, a)
  {
    snapshot := Copy(c.state);
  }
}
