/** The content-mix sequencer (sequence.go): a deterministic walk over a cyclic
    mix configuration that turns `limit`/`offset` into a page of content
    addresses, with single-level fallback, truncation at the first step that has
    no usable provider, and one running index counter per provider. */
module Sequencing {
  import opened Wrappers
  import opened ServiceTypes

  /** One entry of the content mix: the intended provider (the source's `Type`)
      and an optional fallback used when the intended one is failing. */
  datatype MixEntry = MixEntry(primary: Provider, fallback: Option<Provider>)

  /** The mix configuration; repeated entries raise a provider's share. */
  type ContentMix = seq<MixEntry>

  datatype ConfiguredSequencer = ConfiguredSequencer(config: ContentMix)

  /** The constructor keeps the configuration it is given. */
  function MakeConfiguredSequencer(config: ContentMix): (sq: ConfiguredSequencer)
    ensures sq.config == config
  {
    ConfiguredSequencer(config)
  }

  /** The source indexes `config[0]` as soon as one step is walked, so an empty
      mix panics unless validation fails first or no step is requested. */
  predicate NoPanic(mix: ContentMix, limit: int, offset: int)
  {
    limit < 0 || offset < 0 || offset + limit == 0 || |mix| > 0
  }

  /** The provider a mix entry resolves to under the given health view, or
      None when neither the entry's provider nor its fallback is usable. */
  function Choose(fails: Provider -> bool, e: MixEntry): (r: Option<Provider>)
    ensures r.Some? ==> !fails(r.value)
    ensures r == Some(e.primary) <==> !fails(e.primary)
    ensures r.Some? && fails(e.primary) ==> e.fallback == r
    ensures r.None? <==> fails(e.primary) && (e.fallback.None? || fails(e.fallback.value))
  {
    if !fails(e.primary) then Some(e.primary)
    else if e.fallback.Some? && !fails(e.fallback.value) then e.fallback
    else None
  }

  /** The position in a mix of `n` entries at step `j`: it starts at 0 and
      moves to the next entry, back to 0 after the last one. */
  function ConfigIndex(j: nat, n: nat): (c: nat)
    requires n > 0
    ensures c < n
  {
    if j == 0 then 0
    else
      var c := ConfigIndex(j - 1, n);
      if c >= n - 1 then 0 else c + 1
  }

  /** The mix entry that step `j` of the walk uses. */
  function EntryAt(mix: ContentMix, j: nat): MixEntry
    requires |mix| > 0
  {
    mix[ConfigIndex(j, |mix|)]
  }

  /** Step `j` of the walk has a usable provider. */
  predicate Resolves(fails: Provider -> bool, mix: ContentMix, j: nat)
    requires |mix| > 0
  {
    Choose(fails, EntryAt(mix, j)).Some?
  }

  /** The number of addresses in `s` that name provider `p`. */
  function CountOf(s: seq<Address>, p: Provider): (n: nat)
    ensures n <= |s|
  {
    if |s| == 0 then 0
    else CountOf(s[..|s| - 1], p) + (if s[|s| - 1].provider == p then 1 else 0)
  }

  /** The indices, in order, of the addresses in `s` that name provider `p`. */
  function IndicesOf(s: seq<Address>, p: Provider): seq<int>
  {
    if |s| == 0 then []
    else IndicesOf(s[..|s| - 1], p) + (if s[|s| - 1].provider == p then [s[|s| - 1].index] else [])
  }

  /** The sequence 0, 1, ..., n-1. */
  function Range(n: nat): (r: seq<int>)
    ensures |r| == n
    ensures forall k :: 0 <= k < n ==> r[k] == k
  {
    if n == 0 then [] else Range(n - 1) + [n - 1]
  }

  /** Reference definition of the first `n` steps of the walk, all emitted:
      each step that resolves to provider `p` gets as its index the number of
      earlier steps that resolved to `p`; the first step that does not resolve
      ends the walk. */
  function Walk(fails: Provider -> bool, mix: ContentMix, n: nat): (w: seq<Address>)
    requires |mix| > 0 || n == 0
    ensures |w| <= n
  {
    if n == 0 then []
    else
      var prev := Walk(fails, mix, n - 1);
      if |prev| < n - 1 then prev
      else
        match Choose(fails, EntryAt(mix, n - 1))
        case None => prev
        case Some(p) => prev + [Address(p, CountOf(prev, p))]
  }

  /** `s` without its first `k` elements, or empty when it is shorter. */
  function Drop<T>(s: seq<T>, k: nat): (r: seq<T>)
    ensures k <= |s| ==> |r| == |s| - k && forall i :: 0 <= i < |r| ==> r[i] == s[k + i]
    ensures |s| <= k ==> r == []
  {
    if |s| <= k then [] else Drop(s[..|s| - 1], k) + [s[|s| - 1]]
  }

  /** Reference definition of one page: the steps of the walk in
      `[offset, offset + limit)` that were reached before truncation. */
  function SequenceSpec(fails: Provider -> bool, mix: ContentMix, limit: int, offset: int)
    : (r: Result<seq<Address>, Error>)
    requires NoPanic(mix, limit, offset)
    ensures r.Failure? <==> limit < 0 || offset < 0
    ensures r.Failure? ==> r.error == ValidationError(PositiveMessage)
    ensures r.Success? ==> |r.value| <= limit
    ensures r.Success? ==> forall i :: 0 <= i < |r.value| ==> r.value[i].index >= 0
    ensures limit == 0 && offset >= 0 ==> r == Success([])
  {
    if limit < 0 || offset < 0 then Failure(ValidationError(PositiveMessage))
    else
      WalkIndicesNonNegative(fails, mix, offset + limit);
      Success(Drop(Walk(fails, mix, offset + limit), offset))
  }

  /** Every index in a walk is a count, so none is negative. */
  lemma {:induction false} WalkIndicesNonNegative(fails: Provider -> bool, mix: ContentMix, n: nat)
    requires |mix| > 0 || n == 0
    ensures forall i :: 0 <= i < |Walk(fails, mix, n)| ==> Walk(fails, mix, n)[i].index >= 0
  {
    if n > 0 {
      WalkIndicesNonNegative(fails, mix, n - 1);
    }
  }

  /** The counter map of the source: a missing provider reads as Go's zero value. */
  function Counter(m: map<Provider, int>, p: Provider): int
  {
    if p in m then m[p] else 0
  }

  /** `ConfiguredSequencer.Sequence`: the loop of the source, with its map of
      per-provider counters and its wrapping configuration index, computes
      exactly the reference page. */
  method Sequence(sq: ConfiguredSequencer, fails: Provider -> bool, limit: int, offset: int)
    returns (r: Result<seq<Address>, Error>)
    requires NoPanic(sq.config, limit, offset)
    ensures r == SequenceSpec(fails, sq.config, limit, offset)
  {
    if limit < 0 || offset < 0 {
      return Failure(ValidationError(PositiveMessage));
    }
    var providersIndex: map<Provider, int> := map[];
    var addresses: seq<Address> := [];
    var configIndex := 0;
    var i := 0;
    while i < offset + limit
      invariant 0 <= i <= offset + limit
      invariant |sq.config| > 0 ==> Progress(fails, sq.config, offset, i, configIndex, providersIndex, addresses)
      invariant i == 0 ==> addresses == []
    {
      var stopped;
      stopped, configIndex, providersIndex, addresses :=
        SequenceStep(sq.config, fails, offset, i, configIndex, providersIndex, addresses);
      if stopped {
        StoppedPage(fails, sq.config, limit, offset, i, addresses);
        return Success(addresses);
      }
      i := i + 1;
    }
    if offset + limit > 0 {
      FinishedPage(fails, sq.config, limit, offset, configIndex, providersIndex, addresses);
    }
    return Success(addresses);
  }

  /** The loop state after the first `i` steps, all of which resolved: the
      configuration index, the counter map and the page so far agree with the
      reference walk. */
  ghost predicate Progress(fails: Provider -> bool, mix: ContentMix, offset: nat, i: nat,
                           configIndex: int, providersIndex: map<Provider, int>, addresses: seq<Address>)
    requires |mix| > 0
  {
    && configIndex == ConfigIndex(i, |mix|)
    && |Walk(fails, mix, i)| == i
    && addresses == Drop(Walk(fails, mix, i), offset)
    && providersIndex == Counts(Walk(fails, mix, i))
  }

  /** One iteration of the source loop at step `i`: when the mix entry has no
      usable provider the loop stops and nothing changes; otherwise the address
      is emitted once `i` reaches the offset, the provider's counter is bumped
      and the configuration index moves on, keeping all three in step with the
      reference walk. */
  method SequenceStep(mix: ContentMix, fails: Provider -> bool, offset: nat, i: nat,
                      configIndex: int, providersIndex: map<Provider, int>, addresses: seq<Address>)
    returns (stopped: bool, configIndex': int, providersIndex': map<Provider, int>, addresses': seq<Address>)
    requires |mix| > 0
    requires Progress(fails, mix, offset, i, configIndex, providersIndex, addresses)
    ensures stopped <==> !Resolves(fails, mix, i)
    ensures stopped ==> configIndex' == configIndex && providersIndex' == providersIndex && addresses' == addresses
    ensures !stopped ==> Progress(fails, mix, offset, i + 1, configIndex', providersIndex', addresses')
  {
    var entry := mix[configIndex];
    var provider := entry.primary;
    if fails(entry.primary) {
      if entry.fallback.Some? && !fails(entry.fallback.value) {
        provider := entry.fallback.value;
      } else {
        return true, configIndex, providersIndex, addresses;
      }
    }
    var next := Address(provider, Counter(providersIndex, provider));
    addresses' := if i >= offset then addresses + [next] else addresses;
    providersIndex' := providersIndex[provider := Counter(providersIndex, provider) + 1];
    configIndex' := if configIndex >= |mix| - 1 then 0 else configIndex + 1;
    AdvanceProgress(fails, mix, offset, i, configIndex, providersIndex, addresses, next,
                    configIndex', providersIndex', addresses');
    stopped := false;
  }

  /** After all `offset + limit` steps resolved, the page is the reference page. */
  lemma FinishedPage(fails: Provider -> bool, mix: ContentMix, limit: nat, offset: nat,
                     configIndex: int, providersIndex: map<Provider, int>, addresses: seq<Address>)
    requires |mix| > 0
    requires Progress(fails, mix, offset, offset + limit, configIndex, providersIndex, addresses)
    ensures SequenceSpec(fails, mix, limit, offset) == Success(addresses)
  {
  }

  /** A step that resolves moves the loop state on by one step: the page gains
      the address once the step is at or past the offset, the provider's
      counter is bumped and the configuration index wraps to the next entry. */
  lemma AdvanceProgress(fails: Provider -> bool, mix: ContentMix, offset: nat, i: nat,
                        configIndex: int, m: map<Provider, int>, addresses: seq<Address>, next: Address,
                        configIndex': int, m': map<Provider, int>, addresses': seq<Address>)
    requires |mix| > 0
    requires Progress(fails, mix, offset, i, configIndex, m, addresses)
    requires Choose(fails, EntryAt(mix, i)) == Some(next.provider)
    requires next.index == Counter(m, next.provider)
    requires configIndex' == if configIndex >= |mix| - 1 then 0 else configIndex + 1
    requires m' == m[next.provider := Counter(m, next.provider) + 1]
    requires addresses' == if i >= offset then addresses + [next] else addresses
    ensures Progress(fails, mix, offset, i + 1, configIndex', m', addresses')
  {
    AdvanceWalk(fails, mix, offset, i, Walk(fails, mix, i), m, next);
  }

  /** A step that resolves extends the walk by the next address, the page by
      that address once the step is at or past the offset, and the counter map
      by one for the address's provider. */
  lemma AdvanceWalk(fails: Provider -> bool, mix: ContentMix, offset: nat, i: nat,
                    walked: seq<Address>, m: map<Provider, int>, next: Address)
    requires |mix| > 0
    requires walked == Walk(fails, mix, i) && |walked| == i
    requires m == Counts(walked)
    requires Choose(fails, EntryAt(mix, i)) == Some(next.provider)
    requires next.index == Counter(m, next.provider)
    ensures walked + [next] == Walk(fails, mix, i + 1)
    ensures Drop(walked + [next], offset) == if i >= offset then Drop(walked, offset) + [next] else Drop(walked, offset)
    ensures m[next.provider := Counter(m, next.provider) + 1] == Counts(walked + [next])
  {
    CountsAgree(walked, next.provider);
    WalkStep(fails, mix, i, next.provider);
    DropSnoc(walked, next, offset);
    CountsSnoc(walked, next);
  }

  /** The counter map the source builds over a sequence of addresses: each
      address bumps its provider's counter, which starts at Go's zero value. */
  function Counts(s: seq<Address>): map<Provider, int>
  {
    if |s| == 0 then map[]
    else
      var m := Counts(s[..|s| - 1]);
      m[s[|s| - 1].provider := Counter(m, s[|s| - 1].provider) + 1]
  }

  /** Extending the sequence by one address bumps that address's counter. */
  lemma CountsSnoc(s: seq<Address>, a: Address)
    ensures Counts(s + [a]) == Counts(s)[a.provider := Counter(Counts(s), a.provider) + 1]
  {
    assert (s + [a])[..|s|] == s;
  }

  /** The counter of a provider is the number of its addresses so far. */
  lemma {:induction false} CountsAgree(s: seq<Address>, p: Provider)
    ensures Counter(Counts(s), p) == CountOf(s, p)
  {
    if |s| > 0 {
      CountsAgree(s[..|s| - 1], p);
    }
  }

  /** When the walk reaches step `i` untruncated and that step has no usable
      provider, the page is what the first `i` steps gave. */
  lemma StoppedPage(fails: Provider -> bool, mix: ContentMix, limit: nat, offset: nat, i: nat, addresses: seq<Address>)
    requires |mix| > 0
    requires i < offset + limit
    requires |Walk(fails, mix, i)| == i && addresses == Drop(Walk(fails, mix, i), offset)
    requires !Resolves(fails, mix, i)
    ensures SequenceSpec(fails, mix, limit, offset) == Success(addresses)
  {
    WalkStops(fails, mix, i);
    WalkStuck(fails, mix, i + 1, offset + limit);
  }

  /** A step with no usable provider, reached untruncated, ends the walk. */
  lemma WalkStops(fails: Provider -> bool, mix: ContentMix, i: nat)
    requires |mix| > 0
    requires |Walk(fails, mix, i)| == i
    requires !Resolves(fails, mix, i)
    ensures |Walk(fails, mix, i + 1)| < i + 1
    ensures Walk(fails, mix, i + 1) == Walk(fails, mix, i)
  {
  }

  /** One step of the walk from an untruncated prefix, when the step resolves. */
  lemma WalkStep(fails: Provider -> bool, mix: ContentMix, i: nat, p: Provider)
    requires |mix| > 0
    requires |Walk(fails, mix, i)| == i
    requires Choose(fails, EntryAt(mix, i)) == Some(p)
    ensures Walk(fails, mix, i + 1) == Walk(fails, mix, i) + [Address(p, CountOf(Walk(fails, mix, i), p))]
  {
  }

  /** The wrapping configuration index is the step number mod the mix length,
      so step `j` uses mix entry `j mod |mix|`. */
  lemma ConfigIndexIsMod(j: nat, n: nat)
    requires n > 0
    ensures ConfigIndex(j, n) == j % n
  {
    var q := ConfigIndexSplit(j, n);
    ModUnique(j, q, ConfigIndex(j, n), n);
  }

  /** Each wrap back to 0 completes one more round of the mix, so the step
      number is a whole number of rounds plus the configuration index. */
  lemma {:induction false} ConfigIndexSplit(j: nat, n: nat) returns (q: nat)
    requires n > 0
    ensures j == q * n + ConfigIndex(j, n)
  {
    if j == 0 {
      q := 0;
    } else {
      var q' := ConfigIndexSplit(j - 1, n);
      if ConfigIndex(j - 1, n) >= n - 1 {
        q := q' + 1;
        assert q * n == q' * n + n;
      } else {
        q := q';
      }
    }
  }

  /** The remainder of `q * n + r` is `r` when `0 <= r < n`. */
  lemma ModUnique(i: int, q: int, r: int, n: int)
    requires n > 0
    requires 0 <= r < n
    requires i == q * n + r
    ensures i % n == r
  {
    var q' := i / n;
    var r' := i % n;
    assert (q - q') * n == r' - r;
    if q > q' {
      assert (q - q') * n >= n by { MulAtLeast(q - q', n); }
    } else if q < q' {
      assert (q' - q) * n >= n by { MulAtLeast(q' - q, n); }
    }
  }

  lemma MulAtLeast(a: int, n: int)
    requires a >= 1
    requires n > 0
    ensures a * n >= n
  {
  }

  /** Dropping a prefix of a sequence extended by one element. */
  lemma DropSnoc<T>(s: seq<T>, x: T, k: nat)
    ensures Drop(s + [x], k) == if k <= |s| then Drop(s, k) + [x] else []
  {
    assert (s + [x])[..|s|] == s;
  }

  /** Once the walk has stopped short, walking further adds nothing. */
  lemma {:induction false} WalkStuck(fails: Provider -> bool, mix: ContentMix, k: nat, m: nat)
    requires |mix| > 0
    requires k <= m
    requires |Walk(fails, mix, k)| < k
    ensures Walk(fails, mix, m) == Walk(fails, mix, k)
    decreases m
  {
    if m > k {
      WalkStuck(fails, mix, k, m - 1);
    }
  }
}
