/** What resolution guarantees about the service's output, on its own and
    composed with the configured sequencer over one snapshot. */
module ServiceProperties {
  import opened Wrappers
  import opened ServiceTypes
  import opened Caching
  import opened Sequencing
  import opened SequencingProperties
  import opened Service

  /** Resolution keeps address order: resolving two lists one after the other
      is resolving their concatenation. */
  lemma {:induction false} KeepPresentAppend<C>(st: StateView<C>, a: seq<Address>, b: seq<Address>)
    requires Addressable(st, a) && Addressable(st, b)
    ensures Addressable(st, a + b)
    ensures KeepPresent(st, a + b) == KeepPresent(st, a) + KeepPresent(st, b)
    decreases |b|
  {
    assert Addressable(st, a + b) by {
      forall i | 0 <= i < |a + b|
        ensures st.contentItem.requires((a + b)[i])
      {
        if i >= |a| {
          assert (a + b)[i] == b[i - |a|];
        }
      }
    }
    if |b| > 0 {
      var b' := b[..|b| - 1];
      assert (a + b)[..|a + b| - 1] == a + b';
      KeepPresentAppend(st, a, b');
    } else {
      assert a + b == a;
    }
  }

  /** The output holds exactly the non-nil lookups of the addresses. */
  lemma {:induction false} KeepPresentMembers<C>(st: StateView<C>, addrs: seq<Address>, x: Lookup<C>)
    requires Addressable(st, addrs)
    ensures x in KeepPresent(st, addrs) <==>
      !x.Nil? && exists i :: 0 <= i < |addrs| && st.contentItem(addrs[i]) == x
  {
    if |addrs| > 0 {
      var init := addrs[..|addrs| - 1];
      KeepPresentMembers(st, init, x);
      if x in KeepPresent(st, addrs) && x !in KeepPresent(st, init) {
        assert st.contentItem(addrs[|addrs| - 1]) == x;
      }
      if !x.Nil? && (exists i :: 0 <= i < |addrs| && st.contentItem(addrs[i]) == x) {
        var i :| 0 <= i < |addrs| && st.contentItem(addrs[i]) == x;
        if i < |addrs| - 1 {
          assert init[i] == addrs[i];
        }
      }
    }
  }

  /** When no lookup is nil, the output is the lookup of every address, one
      for one and in order. */
  lemma {:induction false} KeepPresentAllFound<C>(st: StateView<C>, addrs: seq<Address>)
    requires Addressable(st, addrs)
    requires forall i :: 0 <= i < |addrs| ==> !st.contentItem(addrs[i]).Nil?
    ensures |KeepPresent(st, addrs)| == |addrs|
    ensures forall i :: 0 <= i < |addrs| ==> KeepPresent(st, addrs)[i] == st.contentItem(addrs[i])
  {
    if |addrs| > 0 {
      var init := addrs[..|addrs| - 1];
      assert forall i :: 0 <= i < |init| ==> init[i] == addrs[i];
      KeepPresentAllFound(st, init);
    }
  }

  /** An address whose lookup is nil contributes nothing: the output is the
      one for the list without it. */
  lemma NilLookupIsDropped<C>(st: StateView<C>, a: seq<Address>, x: Address, b: seq<Address>)
    requires Addressable(st, a) && Addressable(st, b) && st.contentItem.requires(x)
    requires st.contentItem(x).Nil?
    ensures Addressable(st, a + [x] + b) && Addressable(st, a + b)
    ensures KeepPresent(st, a + [x] + b) == KeepPresent(st, a + b)
  {
    assert KeepPresent(st, [x]) == [] by {
      assert [x][..0] == [];
    }
    KeepPresentAppend(st, a, [x]);
    KeepPresentAppend(st, a + [x], b);
    KeepPresentAppend(st, a, b);
  }

  /** As the in-memory state is written, an address past the end of its
      provider's list is not dropped: its lookup is the empty placeholder,
      which the output keeps. */
  lemma OutOfRangeIsKept<C>(s: State<C>, addrs: seq<Address>, i: nat)
    requires Addressable(CacheView(s), addrs)
    requires i < |addrs|
    requires addrs[i].index >= |ListOf(s, addrs[i].provider)|
    ensures EmptyPlaceholder in KeepPresent(CacheView(s), addrs)
  {
    KeepPresentMembers(CacheView(s), addrs, EmptyPlaceholder);
    assert CacheView(s).contentItem(addrs[i]) == EmptyPlaceholder;
  }

  /** Every item served from an in-memory snapshot is stored at one of the
      page's addresses, in range, and that address's provider is not failing
      in the same snapshot. */
  ghost predicate ServedFromHealthy<C>(s: State<C>, page: seq<Address>, c: C)
  {
    exists k :: 0 <= k < |page| && !Fails(s, page[k].provider)
      && 0 <= page[k].index < |ListOf(s, page[k].provider)|
      && ListOf(s, page[k].provider)[page[k].index] == Ptr(c)
  }

  /** End to end over one snapshot with the configured sequencer: every item
      the resolution keeps comes from a healthy provider of that snapshot. */
  lemma ServedItemsComeFromHealthyProviders<C>(s: State<C>, mix: ContentMix, limit: nat, offset: nat, c: C)
    requires |mix| > 0
    ensures var page := MixSequencer(mix)(FailsView(s), limit, offset).value;
      Addressable(CacheView(s), page)
      && (Item(c) in KeepPresent(CacheView(s), page) ==> ServedFromHealthy(s, page, c))
  {
    var page := SequenceSpec(FailsView(s), mix, limit, offset).value;
    assert Addressable(CacheView(s), page);
    KeepPresentMembers(CacheView(s), page, Item(c));
    if Item(c) in KeepPresent(CacheView(s), page) {
      var k :| 0 <= k < |page| && CacheView(s).contentItem(page[k]) == Item(c);
      PageHealthy(FailsView(s), mix, limit, offset, k);
      assert !FailsView(s)(page[k].provider);
    }
  }

  /** `Service.ContentItems` wired as the program wires it: the snapshot the
      expiring cache hands out and the configured sequencer. A negative
      `limit` or `offset` is the validation error; otherwise the output is the
      resolution of the reference page against that snapshot, and every item it
      serves comes from a healthy provider of that snapshot. */
  method ConfiguredContentItems<C>(cacher: Cacher<C>, sq: ConfiguredSequencer, limit: int, offset: int)
    returns (r: Result<seq<Lookup<C>>, Error>)
    requires |sq.config| > 0
    ensures limit < 0 || offset < 0 ==> r == Failure(ValidationError(PositiveMessage))
    ensures limit >= 0 && offset >= 0 ==>
      r == Success(KeepPresent(CacheView(cacher.state),
                               SequenceSpec(FailsView(cacher.state), sq.config, limit, offset).value))
    ensures limit >= 0 && offset >= 0 ==>
      && r.Success?
      && (forall c :: Item(c) in r.value ==>
            ServedFromHealthy(cacher.state, SequenceSpec(FailsView(cacher.state), sq.config, limit, offset).value, c))
  {
    var snapshot := GetState(cacher);
    var state := CacheView(snapshot);
    var sequencer := MixSequencer(sq.config);
    r := ContentItems(state, sequencer, limit, offset);
    if limit >= 0 && offset >= 0 {
      var page := SequenceSpec(FailsView(cacher.state), sq.config, limit, offset).value;
      assert sequencer(state.fails, limit, offset) == Success(page);
      ServedItemsAll(cacher.state, sq.config, limit, offset);
      assert r == Success(KeepPresent(CacheView(cacher.state), page));
    }
  }

  lemma ServedItemsAll<C>(s: State<C>, mix: ContentMix, limit: nat, offset: nat)
    requires |mix| > 0
    ensures var page := SequenceSpec(FailsView(s), mix, limit, offset).value;
      Addressable(CacheView(s), page)
      && (forall c :: Item(c) in KeepPresent(CacheView(s), page) ==> ServedFromHealthy(s, page, c))
  {
    forall c | Item(c) in KeepPresent(CacheView(s), SequenceSpec(FailsView(s), mix, limit, offset).value)
      ensures ServedFromHealthy(s, SequenceSpec(FailsView(s), mix, limit, offset).value, c)
    {
      ServedItemsComeFromHealthyProviders(s, mix, limit, offset, c);
    }
  }

  /** The first service scenario of the tests: every address is in range, so
      the three items come back in address order. */
  lemma NormalRunExample()
    ensures var s := State(map["p1" := [Ptr("p1-0"), Ptr("p1-1")], "p2" := [Ptr("p2-0")]], map[]);
      KeepPresent(CacheView(s), [Address("p1", 0), Address("p2", 0), Address("p1", 1)])
        == [Item("p1-0"), Item("p2-0"), Item("p1-1")]
  {
    var s := State(map["p1" := [Ptr("p1-0"), Ptr("p1-1")], "p2" := [Ptr("p2-0")]], map[]);
    var addrs := [Address("p1", 0), Address("p2", 0), Address("p1", 1)];
    assert addrs[..2] == [Address("p1", 0), Address("p2", 0)];
    assert addrs[..2][..1] == [Address("p1", 0)];
  }

  /** The second service scenario: `p1` holds one item but the third address
      asks for its second. The in-memory state returns the placeholder for it
      and the service keeps it, so three entries come back where the tests ask
      for two. */
  lemma MissingItemExample()
    ensures var s := State(map["p1" := [Ptr("p1-0")], "p2" := [Ptr("p2-0")]], map[]);
      KeepPresent(CacheView(s), [Address("p1", 0), Address("p2", 0), Address("p1", 1)])
        == [Item("p1-0"), Item("p2-0"), EmptyPlaceholder]
  {
    var s := State(map["p1" := [Ptr("p1-0")], "p2" := [Ptr("p2-0")]], map[]);
    var addrs := [Address("p1", 0), Address("p2", 0), Address("p1", 1)];
    assert addrs[..2] == [Address("p1", 0), Address("p2", 0)];
    assert addrs[..2][..1] == [Address("p1", 0)];
  }

  /** A state whose lookup answers nil past the end of a list, the answer the
      cache tests ask of a lookup out of range. */
  function NilPastEndView<C>(s: State<C>): (v: StateView<C>)
    ensures forall a: Address :: a.index >= 0 ==> v.contentItem.requires(a)
    ensures forall a: Address :: a.index >= 0 ==>
      v.contentItem(a) == (if a.index < |ListOf(s, a.provider)| then ContentItem(s, a) else Nil)
  {
    StateView(FailsView(s), (a: Address) requires a.index >= 0 =>
      if a.index < |ListOf(s, a.provider)| then ContentItem(s, a) else Nil)
  }

  /** The second service scenario against a state that answers nil out of
      range: the service drops the missing item and the two entries the test
      asks for come back. */
  lemma NilLookupExample()
    ensures var s := State(map["p1" := [Ptr("p1-0")], "p2" := [Ptr("p2-0")]], map[]);
      KeepPresent(NilPastEndView(s), [Address("p1", 0), Address("p2", 0), Address("p1", 1)])
        == [Item("p1-0"), Item("p2-0")]
  {
    var s := State(map["p1" := [Ptr("p1-0")], "p2" := [Ptr("p2-0")]], map[]);
    var addrs := [Address("p1", 0), Address("p2", 0), Address("p1", 1)];
    assert addrs[..2] == [Address("p1", 0), Address("p2", 0)];
    assert addrs[..2][..1] == [Address("p1", 0)];
  }
}
