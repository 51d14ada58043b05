/** ConnectController for a single controller: the candidates, then the search. */
module DriverConnect {
  import opened DriverSearch
  import opened DriverCandidates

  datatype Result = Connected | NotFound | InvalidHandle

  /** The driver bindings that matter for a controller: those of the handles named by the caller, by the platform and
      by the bus, the handles with a family override version, and all handles with a driver binding. */
  datatype Sources = Sources(
    context: seq<Handle>, platform: seq<Handle>, family: map<Handle, nat>, bus: seq<Handle>,
    handles: seq<Handle>, installed: map<Handle, Binding>)

  /** `sorted` is a sorting of the bindings by descending version, in any order among equal versions. */
  ghost predicate SortedByVersion(sorted: seq<Binding>, bindings: seq<Binding>, version: Binding -> nat) {
    multiset(sorted) == multiset(bindings) && Descending(sorted, version)
  }

  /** The candidates in order of precedence: `familyHandles` are the handles with a family override by descending
      version, and every source contributes its bindings that no earlier source contributes. */
  ghost predicate CandidatesOf(s: Segments, src: Sources, familyHandles: seq<Handle>, all: seq<Binding>) {
    && FamilyOrder(familyHandles, src.handles, src.family)
    && SegmentsOf(s, Segments(
         BindingsFor(src.context, src.installed), BindingsFor(src.platform, src.installed),
         BindingsFor(familyHandles, src.installed), BindingsFor(src.bus, src.installed), all))
  }

  /** `all` is the version-sorted list of all driver bindings. */
  method ConnectSingleController(
    controllerValid: bool, src: Sources, all: seq<Binding>, ghost version: Binding -> nat, d: Drivers, pathIsEnd: bool)
    returns (result: Result, s: Segments, familyHandles: seq<Handle>, calls: seq<Call>, ghost rounds: seq<Round>)
    requires SortedByVersion(all, BindingsFor(src.handles, src.installed), version)
    ensures result == InvalidHandle <==> !controllerValid
    ensures result == InvalidHandle ==> calls == []
    ensures Truthful(calls, d)
    ensures controllerValid ==> (result == Connected <==> AnySuccess(calls) || pathIsEnd)
    ensures controllerValid ==> CandidatesOf(s, src, familyHandles, all) && Descending(s.all, version)
    ensures controllerValid ==> RoundsOk(s.Concat(), rounds) && calls == AllCalls(s.Concat(), rounds)
    ensures controllerValid ==> Searched(s.Concat(), calls)
    ensures controllerValid ==> forall h :: h in src.handles && h in src.installed ==> src.installed[h] in s.Concat()
  {
    if !controllerValid {
      return InvalidHandle, Segments([], [], [], [], []), [], [], [];
    }
    var candidates;
    candidates, s, familyHandles := GatherCandidates(src, all, version);
    var ok, left;
    ok, calls, left, rounds := ConnectCandidates(candidates, d, pathIsEnd);
    assert calls == AllCalls(candidates, rounds);
    result := if ok then Connected else NotFound;
    SearchFacts(candidates, rounds);
  }

  /** Every installed driver binding is a candidate. */
  method GatherCandidates(src: Sources, all: seq<Binding>, ghost version: Binding -> nat)
    returns (candidates: seq<Binding>, s: Segments, familyHandles: seq<Handle>)
    requires SortedByVersion(all, BindingsFor(src.handles, src.installed), version)
    ensures candidates == s.Concat() && CandidatesOf(s, src, familyHandles, all) && Descending(s.all, version)
    ensures forall h :: h in src.handles && h in src.installed ==> src.installed[h] in candidates
  {
    familyHandles := FamilyOverrideHandles(src.handles, src.family);
    candidates, s := BuildCandidates(
      BindingsFor(src.context, src.installed), BindingsFor(src.platform, src.installed),
      BindingsFor(familyHandles, src.installed), BindingsFor(src.bus, src.installed), all);
    forall h | h in src.handles && h in src.installed ensures src.installed[h] in candidates {
      InstalledIsListed(src, all, version, h);
    }
  }

  lemma InstalledIsListed(src: Sources, all: seq<Binding>, version: Binding -> nat, h: Handle)
    requires SortedByVersion(all, BindingsFor(src.handles, src.installed), version)
    requires h in src.handles && h in src.installed
    ensures src.installed[h] in all
  {
    BindingsForElements(src.handles, src.installed, src.installed[h]);
    assert src.installed[h] in multiset(all);
  }

  /** The sources and the drivers' answers determine all calls: the order of precedence is part of the contract. */
  lemma ConnectDetermined(
    src: Sources, all: seq<Binding>, d: Drivers, s: Segments, s': Segments, hs: seq<Handle>, hs': seq<Handle>,
    rounds: seq<Round>, rounds': seq<Round>)
    requires CandidatesOf(s, src, hs, all) && CandidatesOf(s', src, hs', all)
    requires RoundsOk(s.Concat(), rounds) && Truthful(AllCalls(s.Concat(), rounds), d)
    requires RoundsOk(s'.Concat(), rounds') && Truthful(AllCalls(s'.Concat(), rounds'), d)
    ensures AllCalls(s.Concat(), rounds) == AllCalls(s'.Concat(), rounds')
  {
    CandidatesDetermined(src, all, s, s', hs, hs');
    RoundsDetermined(s.Concat(), rounds, rounds', d);
  }

  lemma CandidatesDetermined(
    src: Sources, all: seq<Binding>, s: Segments, s': Segments, hs: seq<Handle>, hs': seq<Handle>)
    requires CandidatesOf(s, src, hs, all) && CandidatesOf(s', src, hs', all)
    ensures s == s'
  {
    FamilyOrderDetermined(hs, hs', src.handles, src.family);
    SegmentsDetermined(s, s', Segments(
      BindingsFor(src.context, src.installed), BindingsFor(src.platform, src.installed),
      BindingsFor(hs, src.installed), BindingsFor(src.bus, src.installed), all));
  }

  lemma RoundsDetermined(cs: seq<Binding>, rounds: seq<Round>, rounds': seq<Round>, d: Drivers)
    requires RoundsOk(cs, rounds) && Truthful(AllCalls(cs, rounds), d)
    requires RoundsOk(cs, rounds') && Truthful(AllCalls(cs, rounds'), d)
    ensures rounds == rounds'
  {
    assert [] + AllCalls(cs, rounds) == AllCalls(cs, rounds) && [] + AllCalls(cs, rounds') == AllCalls(cs, rounds');
    SearchDetermined([], cs, rounds, rounds', d);
  }

  /** The first call goes to the first candidate; if it reports support, it is started at once. */
  lemma FirstCalls(cs: seq<Binding>, rounds: seq<Round>)
    requires cs != [] && RoundsOk(cs, rounds)
    ensures var calls, found := AllCalls(cs, rounds), rounds != [] && rounds[0].index == 0;
            && calls != [] && calls[0] == Supported(cs[0], found)
            && (found ==> |calls| >= 2 && calls[1] == Started(cs[0], rounds[0].success))
  {
  }

  /** A supported context override is started before anything else is called. */
  lemma ContextFirst(
    src: Sources, all: seq<Binding>, d: Drivers, s: Segments, familyHandles: seq<Handle>, rounds: seq<Round>)
    requires CandidatesOf(s, src, familyHandles, all) && src.context != [] && src.context[0] in src.installed
    requires RoundsOk(s.Concat(), rounds) && Truthful(AllCalls(s.Concat(), rounds), d)
    requires d.supported([], src.installed[src.context[0]])
    ensures var calls, first := AllCalls(s.Concat(), rounds), src.installed[src.context[0]];
            |calls| >= 2 && calls[0] == Supported(first, true) && calls[1] == Started(first, d.start(calls[..1], first))
  {
    var calls := AllCalls(s.Concat(), rounds);
    FirstCalls(s.Concat(), rounds);
    assert calls[..0] == [];
  }
}
