/** What the sequencer's walk promises: truncation, the cyclic choice of mix
    entries, healthy providers only, per-provider counters, and paging that is
    consistent across pages. */
module SequencingProperties {
  import opened Wrappers
  import opened ServiceTypes
  import opened Sequencing

  function Min(a: int, b: int): int
  {
    if a <= b then a else b
  }

  /** Every step the walk emitted resolved, and when the walk stopped short the
      step it stopped at does not resolve. */
  lemma {:induction false} WalkShape(fails: Provider -> bool, mix: ContentMix, n: nat)
    requires |mix| > 0
    ensures forall j :: 0 <= j < |Walk(fails, mix, n)| ==> Resolves(fails, mix, j)
    ensures |Walk(fails, mix, n)| < n ==> !Resolves(fails, mix, |Walk(fails, mix, n)|)
  {
    if n > 0 {
      WalkShape(fails, mix, n - 1);
    }
  }

  /** The walk of `n` steps is complete exactly when every one of its steps
      resolves. */
  lemma WalkComplete(fails: Provider -> bool, mix: ContentMix, n: nat)
    requires |mix| > 0
    ensures |Walk(fails, mix, n)| == n <==> forall j :: 0 <= j < n ==> Resolves(fails, mix, j)
  {
    WalkShape(fails, mix, n);
  }

  /** A shorter walk is a prefix of a longer one: walking further never changes
      what was already emitted. */
  lemma {:induction false} WalkPrefix(fails: Provider -> bool, mix: ContentMix, m: nat, n: nat)
    requires |mix| > 0
    requires m <= n
    ensures Min(m, |Walk(fails, mix, n)|) == |Walk(fails, mix, m)|
    ensures Walk(fails, mix, m) == Walk(fails, mix, n)[..Min(m, |Walk(fails, mix, n)|)]
    decreases n
  {
    if m < n {
      WalkPrefix(fails, mix, m, n - 1);
      var prev := Walk(fails, mix, n - 1);
      assert Walk(fails, mix, n)[..|prev|] == prev;
    }
  }

  /** Step `j` of the walk uses the mix entry at the configuration index of
      step `j`, and its index counts the earlier steps that resolved to the
      same provider. */
  lemma WalkEntry(fails: Provider -> bool, mix: ContentMix, n: nat, j: nat)
    requires |mix| > 0
    requires j < |Walk(fails, mix, n)|
    ensures Choose(fails, EntryAt(mix, j)) == Some(Walk(fails, mix, n)[j].provider)
    ensures Walk(fails, mix, n)[j].index
         == CountOf(Walk(fails, mix, n)[..j], Walk(fails, mix, n)[j].provider)
  {
    var w := Walk(fails, mix, n);
    WalkPrefix(fails, mix, j + 1, n);
    WalkPrefix(fails, mix, j, n);
    assert Walk(fails, mix, j + 1) == w[..j + 1];
    assert Walk(fails, mix, j) == w[..j];
    assert w[..j + 1] == w[..j] + [w[j]];
  }

  /** Step `j` of the walk uses mix entry `j mod |mix|`, and its index counts the
      earlier steps that resolved to the same provider. */
  lemma WalkElement(fails: Provider -> bool, mix: ContentMix, n: nat, j: nat)
    requires |mix| > 0
    requires j < |Walk(fails, mix, n)|
    ensures Choose(fails, mix[j % |mix|]) == Some(Walk(fails, mix, n)[j].provider)
    ensures Walk(fails, mix, n)[j].index
         == CountOf(Walk(fails, mix, n)[..j], Walk(fails, mix, n)[j].provider)
  {
    WalkEntry(fails, mix, n, j);
    ConfigIndexIsMod(j, |mix|);
  }

  /** Every emitted provider is healthy: it is the entry's own provider when that
      one does not fail, and otherwise the entry's configured fallback. */
  lemma WalkHealthy(fails: Provider -> bool, mix: ContentMix, n: nat, j: nat)
    requires |mix| > 0
    requires j < |Walk(fails, mix, n)|
    ensures !fails(Walk(fails, mix, n)[j].provider)
    ensures !fails(mix[j % |mix|].primary) ==> Walk(fails, mix, n)[j].provider == mix[j % |mix|].primary
    ensures fails(mix[j % |mix|].primary) ==> mix[j % |mix|].fallback == Some(Walk(fails, mix, n)[j].provider)
  {
    WalkElement(fails, mix, n, j);
  }

  /** In a sequence where each index counts the earlier addresses of the same
      provider, each provider's indices are 0, 1, 2, ... in order. */
  lemma {:induction false} IndicesAreCounts(s: seq<Address>, p: Provider)
    requires forall j :: 0 <= j < |s| ==> s[j].index == CountOf(s[..j], s[j].provider)
    ensures IndicesOf(s, p) == Range(CountOf(s, p))
  {
    if |s| > 0 {
      var s' := s[..|s| - 1];
      forall j | 0 <= j < |s'|
        ensures s'[j].index == CountOf(s'[..j], s'[j].provider)
      {
        assert s'[..j] == s[..j];
      }
      IndicesAreCounts(s', p);
      assert s[..|s| - 1] == s';
    }
  }

  /** With no offset, every provider's indices in the walk are 0, 1, 2, ... */
  lemma WalkIndicesPerProvider(fails: Provider -> bool, mix: ContentMix, n: nat, p: Provider)
    requires |mix| > 0
    ensures IndicesOf(Walk(fails, mix, n), p) == Range(CountOf(Walk(fails, mix, n), p))
  {
    var w := Walk(fails, mix, n);
    forall j | 0 <= j < |w|
      ensures w[j].index == CountOf(w[..j], w[j].provider)
    {
      WalkEntry(fails, mix, n, j);
    }
    IndicesAreCounts(w, p);
  }

  /** When the first step without a usable provider is `t`, a walk of `n`
      steps has exactly `min(n, t)` addresses. */
  lemma FirstStopLength(fails: Provider -> bool, mix: ContentMix, t: nat, n: nat)
    requires |mix| > 0
    requires forall j :: 0 <= j < t ==> Resolves(fails, mix, j)
    requires !Resolves(fails, mix, t)
    ensures |Walk(fails, mix, n)| == Min(n, t)
  {
    WalkShape(fails, mix, n);
  }

  /** Dropping from a prefix of `w` is a slice of `w`. */
  lemma DropOfPrefix<T>(w: seq<T>, k: nat, m: nat)
    requires m <= |w|
    ensures Drop(w[..m], k) == w[Min(k, m)..m]
  {
  }

  /** Dropping nothing keeps the whole sequence. */
  lemma DropNothing<T>(w: seq<T>)
    ensures Drop(w, 0) == w
  {
  }

  /** A sequence is its two slices around any cut. */
  lemma SliceSplit<T>(w: seq<T>, m: nat)
    requires m <= |w|
    ensures w[0..m] + w[m..|w|] == w
  {
  }

  /** A page is a contiguous slice of any walk long enough to contain it. */
  lemma PageIsSlice(fails: Provider -> bool, mix: ContentMix, limit: nat, offset: nat, n: nat)
    requires |mix| > 0
    requires offset + limit <= n
    ensures SequenceSpec(fails, mix, limit, offset)
         == Success(Walk(fails, mix, n)[Min(offset, |Walk(fails, mix, n)|)..Min(offset + limit, |Walk(fails, mix, n)|)])
  {
    var w := Walk(fails, mix, n);
    var m := Min(offset + limit, |w|);
    WalkPrefix(fails, mix, offset + limit, n);
    DropOfPrefix(w, offset, m);
    assert Min(offset, m) == Min(offset, |w|);
  }

  /** Paging consistency: the page at `offset` is the page from 0 to
      `offset + limit` with its first `offset` addresses dropped. */
  lemma PagingConsistency(fails: Provider -> bool, mix: ContentMix, limit: nat, offset: nat)
    requires |mix| > 0
    ensures SequenceSpec(fails, mix, limit, offset)
         == Success(Drop(SequenceSpec(fails, mix, offset + limit, 0).value, offset))
  {
    DropNothing(Walk(fails, mix, offset + limit));
  }

  /** Consecutive pages concatenate to the page that covers both. */
  lemma PagesConcatenate(fails: Provider -> bool, mix: ContentMix, a: nat, b: nat)
    requires |mix| > 0
    ensures SequenceSpec(fails, mix, a, 0).value + SequenceSpec(fails, mix, b, a).value
         == SequenceSpec(fails, mix, a + b, 0).value
  {
    var w := Walk(fails, mix, a + b);
    var m := Min(a, |w|);
    PageIsSlice(fails, mix, a, 0, a + b);
    PageIsSlice(fails, mix, b, a, a + b);
    assert Min(0, |w|) == 0 && Min(a + b, |w|) == |w|;
    var first := SequenceSpec(fails, mix, a, 0).value;
    var second := SequenceSpec(fails, mix, b, a).value;
    assert first == w[0..m];
    assert second == w[m..|w|];
    DropNothing(w);
    SliceSplit(w, m);
  }

  /** Element `k` of a page is step `offset + k` of the walk, with the entry and
      index that step has there. */
  lemma PageEntry(fails: Provider -> bool, mix: ContentMix, limit: nat, offset: nat, k: nat)
    requires |mix| > 0
    requires k < |SequenceSpec(fails, mix, limit, offset).value|
    ensures var a := SequenceSpec(fails, mix, limit, offset).value[k];
      && Choose(fails, EntryAt(mix, offset + k)) == Some(a.provider)
      && a.index == CountOf(Walk(fails, mix, offset + k), a.provider)
  {
    PageIndex(fails, mix, limit, offset, k);
    StepEntry(fails, mix, offset + limit, offset + k);
  }

  /** Element `k` of a page is element `offset + k` of the walk. */
  lemma PageIndex(fails: Provider -> bool, mix: ContentMix, limit: nat, offset: nat, k: nat)
    requires |mix| > 0
    requires k < |SequenceSpec(fails, mix, limit, offset).value|
    ensures offset + k < |Walk(fails, mix, offset + limit)|
    ensures SequenceSpec(fails, mix, limit, offset).value[k] == Walk(fails, mix, offset + limit)[offset + k]
  {
  }

  /** Step `j` of a walk uses the entry at the configuration index of step `j`,
      and its index counts the steps of the walk before `j` for its provider. */
  lemma StepEntry(fails: Provider -> bool, mix: ContentMix, n: nat, j: nat)
    requires |mix| > 0
    requires j < |Walk(fails, mix, n)|
    ensures Choose(fails, EntryAt(mix, j)) == Some(Walk(fails, mix, n)[j].provider)
    ensures Walk(fails, mix, n)[j].index == CountOf(Walk(fails, mix, j), Walk(fails, mix, n)[j].provider)
  {
    WalkEntry(fails, mix, n, j);
    WalkPrefix(fails, mix, j, n);
  }

  /** Element `k` of a page is step `offset + k` of the walk: its provider comes
      from mix entry `(offset + k) mod |mix|` and its index counts every earlier
      step for that provider, the skipped steps before `offset` included. */
  lemma PageElement(fails: Provider -> bool, mix: ContentMix, limit: nat, offset: nat, k: nat)
    requires |mix| > 0
    requires k < |SequenceSpec(fails, mix, limit, offset).value|
    ensures var a := SequenceSpec(fails, mix, limit, offset).value[k];
      && Choose(fails, mix[(offset + k) % |mix|]) == Some(a.provider)
      && a.index == CountOf(Walk(fails, mix, offset + k), a.provider)
  {
    PageEntry(fails, mix, limit, offset, k);
    ConfigIndexIsMod(offset + k, |mix|);
  }

  /** Every address on a page names a healthy provider: the entry's own one when
      it does not fail, otherwise the entry's configured fallback. */
  lemma PageHealthy(fails: Provider -> bool, mix: ContentMix, limit: nat, offset: nat, k: nat)
    requires |mix| > 0
    requires k < |SequenceSpec(fails, mix, limit, offset).value|
    ensures var a := SequenceSpec(fails, mix, limit, offset).value[k];
      var e := mix[(offset + k) % |mix|];
      && !fails(a.provider)
      && (!fails(e.primary) ==> a.provider == e.primary)
      && (fails(e.primary) ==> e.fallback == Some(a.provider))
  {
    PageElement(fails, mix, limit, offset, k);
  }

  /** With offset 0, each provider's indices on the page are 0, 1, 2, ... */
  lemma FirstPageIndices(fails: Provider -> bool, mix: ContentMix, limit: nat, p: Provider)
    requires |mix| > 0
    ensures var page := SequenceSpec(fails, mix, limit, 0).value;
      IndicesOf(page, p) == Range(CountOf(page, p))
  {
    WalkIndicesPerProvider(fails, mix, limit, p);
    assert SequenceSpec(fails, mix, limit, 0).value == Walk(fails, mix, limit);
  }

  /** Truncation: when step `t` has no usable provider, no address comes from
      step `t` or later, no error is reported, and a page starting at or after
      `t` is empty. */
  lemma Truncation(fails: Provider -> bool, mix: ContentMix, limit: nat, offset: nat, t: nat)
    requires |mix| > 0
    requires !Resolves(fails, mix, t)
    ensures SequenceSpec(fails, mix, limit, offset).Success?
    ensures var page := SequenceSpec(fails, mix, limit, offset).value;
      page == [] || offset + |page| <= t
    ensures t <= offset ==> SequenceSpec(fails, mix, limit, offset) == Success([])
  {
    var n := offset + limit;
    var w := Walk(fails, mix, n);
    WalkShape(fails, mix, n);
    assert |w| <= t;
  }

  /** With no failing provider every page is full. */
  lemma HealthyPagesAreFull(fails: Provider -> bool, mix: ContentMix, limit: nat, offset: nat)
    requires |mix| > 0
    requires forall p :: !fails(p)
    ensures |SequenceSpec(fails, mix, limit, offset).value| == limit
  {
    WalkComplete(fails, mix, offset + limit);
  }
}
