/** The aggregation read path (`Service.ContentItems` in service.go): validate
    the page request, sequence it against one snapshot, and resolve the
    addresses against that same snapshot, leaving out nil lookups. */
module Service {
  import opened Wrappers
  import opened ServiceTypes
  import opened Caching
  import opened Sequencing

  /** The `Sequencer` capability: from a health view, `limit` and `offset` to
      a list of addresses or an error. */
  type SequenceFn = (Provider -> bool, int, int) -> Result<seq<Address>, Error>

  /** The `State` interface the service reads: the `FailsState` health view
      and a content lookup. The lookup may be partial, as the in-memory state's
      is: it panics on a negative index. */
  datatype StateView<C> = StateView(fails: Provider -> bool, contentItem: Address --> Lookup<C>)

  /** An in-memory state seen through the `FailsState` interface. */
  function FailsView<C>(s: State<C>): Provider -> bool
  {
    p => Fails(s, p)
  }

  /** An in-memory state seen through the `State` interface. */
  function CacheView<C>(s: State<C>): (v: StateView<C>)
    ensures v.fails == FailsView(s)
    ensures forall a: Address :: a.index >= 0 ==> v.contentItem.requires(a)
    ensures forall a: Address :: a.index >= 0 ==> v.contentItem(a) == ContentItem(s, a)
  {
    StateView(FailsView(s), (a: Address) requires a.index >= 0 => ContentItem(s, a))
  }

  /** Every address can be looked up without a panic. */
  ghost predicate Addressable<C>(st: StateView<C>, addrs: seq<Address>)
  {
    forall i :: 0 <= i < |addrs| ==> st.contentItem.requires(addrs[i])
  }

  /** Reference definition of resolution: the lookups of the addresses, in
      address order, with the nil ones left out. */
  function KeepPresent<C>(st: StateView<C>, addrs: seq<Address>): (r: seq<Lookup<C>>)
    requires Addressable(st, addrs)
    ensures |r| <= |addrs|
    ensures forall i :: 0 <= i < |r| ==> !r[i].Nil?
  {
    if |addrs| == 0 then []
    else
      var last := st.contentItem(addrs[|addrs| - 1]);
      KeepPresent(st, addrs[..|addrs| - 1]) + (if last.Nil? then [] else [last])
  }

  /** `Service.ContentItems` over the snapshot the cacher handed out: a
      negative `limit` or `offset` is a validation error whatever the snapshot
      and the sequencer are; a sequencer error is passed on as is; otherwise
      the output is the resolution of the sequenced addresses against the same
      snapshot the sequencer saw. */
  method ContentItems<C>(state: StateView<C>, sequencer: SequenceFn, limit: int, offset: int)
    returns (r: Result<seq<Lookup<C>>, Error>)
    requires limit >= 0 && offset >= 0 && sequencer(state.fails, limit, offset).Success?
             ==> Addressable(state, sequencer(state.fails, limit, offset).value)
    ensures limit < 0 || offset < 0 ==> r == Failure(ValidationError(PositiveMessage))
    ensures limit >= 0 && offset >= 0 && sequencer(state.fails, limit, offset).Failure?
            ==> r == Failure(sequencer(state.fails, limit, offset).error)
    ensures limit >= 0 && offset >= 0 && sequencer(state.fails, limit, offset).Success?
            ==> r == Success(KeepPresent(state, sequencer(state.fails, limit, offset).value))
  {
    if limit < 0 || offset < 0 {
      return Failure(ValidationError(PositiveMessage));
    }
    var output: seq<Lookup<C>> := [];
    var addressSequence := sequencer(state.fails, limit, offset);
    if addressSequence.Failure? {
      return Failure(addressSequence.error);
    }
    var addrs := addressSequence.value;
    var i := 0;
    while i < |addrs|
      invariant 0 <= i <= |addrs|
      invariant output == KeepPresent(state, addrs[..i])
    {
      var ci := state.contentItem(addrs[i]);
      assert addrs[..i + 1][..i] == addrs[..i];
      if !ci.Nil? {
        output := output + [state.contentItem(addrs[i])];
      }
      i := i + 1;
    }
    assert addrs[..|addrs|] == addrs;
    return Success(output);
  }

  /** The configured sequencer offered through the `Sequencer` capability. */
  function MixSequencer(mix: ContentMix): (f: SequenceFn)
    requires |mix| > 0
    ensures forall fails, limit, offset :: f(fails, limit, offset) == SequenceSpec(fails, mix, limit, offset)
  {
    (fails: Provider -> bool, limit: int, offset: int) => SequenceSpec(fails, mix, limit, offset)
  }
}
