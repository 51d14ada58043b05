/** Connecting drivers to one controller: the restarting search over the candidate drivers, with
    driver answers that may depend on everything called before. */
module DriverSearch {

  type Binding = nat

  /** A call to a driver, with its answer. */
  datatype Call =
    | Supported(driver: Binding, yes: bool)
    | Started(driver: Binding, success: bool)

  /** How drivers answer, given the calls so far. */
  datatype Drivers = Drivers(supported: (seq<Call>, Binding) -> bool, start: (seq<Call>, Binding) -> bool)

  /** Every answer is the one the driver gives at that point. */
  ghost predicate Truthful(calls: seq<Call>, d: Drivers) {
    forall k :: 0 <= k < |calls| ==>
      match calls[k]
      case Supported(b, yes) => yes == d.supported(calls[..k], b)
      case Started(b, success) => success == d.start(calls[..k], b)
  }

  /** One sweep that found a driver: the position of the driver among the remaining ones, and how Start went. */
  datatype Round = Round(index: nat, success: bool)

  function Without(cs: seq<Binding>, i: nat): seq<Binding>
    requires i < |cs|
  {
    cs[..i] + cs[i + 1..]
  }

  function Refusals(cs: seq<Binding>): seq<Call> {
    seq(|cs|, i requires 0 <= i < |cs| => Supported(cs[i], false))
  }

  ghost predicate RoundsOk(cs: seq<Binding>, rounds: seq<Round>)
    decreases |rounds|
  {
    rounds == [] || (rounds[0].index < |cs| && RoundsOk(Without(cs, rounds[0].index), rounds[1..]))
  }

  /** Every remaining candidate before the found one refuses; the found one is supported and started. */
  function OneRound(cs: seq<Binding>, r: Round): seq<Call>
    requires r.index < |cs|
  {
    Refusals(cs[..r.index]) + [Supported(cs[r.index], true), Started(cs[r.index], r.success)]
  }

  /** The calls of the found rounds: in each round every remaining candidate before the found one refuses,
      the found one is supported and started, and is not a candidate any more. */
  function RoundCalls(cs: seq<Binding>, rounds: seq<Round>): seq<Call>
    requires RoundsOk(cs, rounds)
    decreases |rounds|
  {
    if rounds == [] then []
    else
      OneRound(cs, rounds[0]) + RoundCalls(Without(cs, rounds[0].index), rounds[1..])
  }

  /** The candidates that are left after the rounds. */
  function Left(cs: seq<Binding>, rounds: seq<Round>): seq<Binding>
    requires RoundsOk(cs, rounds)
    decreases |rounds|
  {
    if rounds == [] then cs else Left(Without(cs, rounds[0].index), rounds[1..])
  }

  /** The drivers started, in order. */
  function StartedDrivers(calls: seq<Call>): seq<Binding> {
    if calls == [] then []
    else (if calls[0].Started? then [calls[0].driver] else []) + StartedDrivers(calls[1..])
  }

  function SupportedCalls(calls: seq<Call>): nat {
    if calls == [] then 0 else (if calls[0].Supported? then 1 else 0) + SupportedCalls(calls[1..])
  }

  ghost predicate AnySuccess(calls: seq<Call>) {
    exists k :: 0 <= k < |calls| && calls[k].Started? && calls[k].success
  }

  // ---------- properties of every search ----------

  lemma {:induction false} StartedConcat(calls: seq<Call>, calls': seq<Call>)
    ensures StartedDrivers(calls + calls') == StartedDrivers(calls) + StartedDrivers(calls')
    ensures SupportedCalls(calls + calls') == SupportedCalls(calls) + SupportedCalls(calls')
  {
    if calls == [] {
      assert calls + calls' == calls';
    } else {
      assert (calls + calls')[1..] == calls[1..] + calls';
      StartedConcat(calls[1..], calls');
    }
  }

  lemma {:induction false} RefusalsCounted(cs: seq<Binding>)
    ensures StartedDrivers(Refusals(cs)) == [] && SupportedCalls(Refusals(cs)) == |cs|
  {
    if cs != [] {
      assert Refusals(cs)[1..] == Refusals(cs[1..]);
      RefusalsCounted(cs[1..]);
    }
  }

  /** One round, counted. */
  lemma RoundCounted(cs: seq<Binding>, r: Round, rest: seq<Call>)
    requires r.index < |cs|
    ensures var calls := OneRound(cs, r) + rest;
            && StartedDrivers(calls) == [cs[r.index]] + StartedDrivers(rest)
            && SupportedCalls(calls) == r.index + 1 + SupportedCalls(rest)
  {
    var b := cs[r.index];
    StartedConcat([Supported(b, true)], [Started(b, r.success)]);
    RefusalsCounted(cs[..r.index]);
    StartedConcat(Refusals(cs[..r.index]), [Supported(b, true), Started(b, r.success)]);
    StartedConcat(OneRound(cs, r), rest);
  }

  /** No candidate entry is started twice and none disappears: the started ones and those left are the candidates. */
  lemma {:induction false} StartedOnce(cs: seq<Binding>, rounds: seq<Round>)
    requires RoundsOk(cs, rounds)
    ensures multiset(StartedDrivers(RoundCalls(cs, rounds))) + multiset(Left(cs, rounds)) == multiset(cs)
    ensures |rounds| + |Left(cs, rounds)| == |cs|
    decreases |rounds|
  {
    if rounds != [] {
      var i := rounds[0].index;
      var rest := Without(cs, i);
      StartedOnce(rest, rounds[1..]);
      RoundCounted(cs, rounds[0], RoundCalls(rest, rounds[1..]));
      WithoutElements(cs, i);
      ConsElements(cs[i], StartedDrivers(RoundCalls(rest, rounds[1..])));
    }
  }

  lemma WithoutElements(cs: seq<Binding>, i: nat)
    requires i < |cs|
    ensures multiset(cs) == multiset(Without(cs, i)) + multiset{cs[i]}
  {
    assert cs == cs[..i] + [cs[i]] + cs[i + 1..];
  }

  lemma ConsElements(b: Binding, bs: seq<Binding>)
    ensures multiset([b] + bs) == multiset{b} + multiset(bs)
  {
  }

  /** With n candidates there are at most n(n+1)/2 Supported calls, the last sweep included. */
  lemma {:induction false} SupportedBound(cs: seq<Binding>, rounds: seq<Round>)
    requires RoundsOk(cs, rounds)
    ensures 2 * (SupportedCalls(RoundCalls(cs, rounds)) + |Left(cs, rounds)|) <= |cs| * (|cs| + 1)
    decreases |rounds|
  {
    if rounds != [] {
      var i := rounds[0].index;
      var rest := Without(cs, i);
      SupportedBound(rest, rounds[1..]);
      RoundCounted(cs, rounds[0], RoundCalls(rest, rounds[1..]));
      var n := |cs|;
      assert n * (n + 1) == (n - 1) * n + 2 * n;
    } else if |cs| > 0 {
      assert |cs| * (|cs| + 1) >= |cs| * 2;
    }
  }

  // ---------- the search ----------

  /** Truth of a call appended to a truthful history. */
  lemma TruthfulAppend(calls: seq<Call>, c: Call, d: Drivers)
    requires Truthful(calls, d)
    requires match c
             case Supported(b, yes) => yes == d.supported(calls, b)
             case Started(b, success) => success == d.start(calls, b)
    ensures Truthful(calls + [c], d)
  {
    assert (calls + [c])[..|calls|] == calls;
    assert forall k :: 0 <= k < |calls| ==> (calls + [c])[..k] == calls[..k];
  }

  /** One sweep over the remaining candidates: stops at the first that is supported, after starting it. */
  method Sweep(candidates: seq<Binding>, calls: seq<Call>, d: Drivers)
    returns (found: bool, index: nat, success: bool, calls': seq<Call>)
    requires Truthful(calls, d)
    ensures Truthful(calls', d)
    ensures found ==> index < |candidates| && calls' == calls + OneRound(candidates, Round(index, success))
    ensures !found ==> calls' == calls + Refusals(candidates)
  {
    calls', found, index, success := calls, false, 0, false;
    while index < |candidates|
      invariant index <= |candidates| && Truthful(calls', d)
      invariant calls' == calls + Refusals(candidates[..index])
    {
      var b := candidates[index];
      var yes := d.supported(calls', b);
      TruthfulAppend(calls', Supported(b, yes), d);
      calls' := calls' + [Supported(b, yes)];
      if yes {
        success := d.start(calls', b);
        TruthfulAppend(calls', Started(b, success), d);
        calls' := calls' + [Started(b, success)];
        assert calls' == calls + OneRound(candidates, Round(index, success));
        found := true;
        return;
      }
      assert Refusals(candidates[..index + 1]) == Refusals(candidates[..index]) + [Supported(b, false)];
      index := index + 1;
    }
    assert candidates[..index] == candidates;
  }

  /** Starts supported candidates, restarting from the highest precedence after each, until a sweep finds none.
      The result is Ok when a driver was started, or there is nothing below the controller to connect to. */
  method ConnectCandidates(candidates: seq<Binding>, d: Drivers, pathIsEnd: bool)
    returns (ok: bool, calls: seq<Call>, left: seq<Binding>, ghost rounds: seq<Round>)
    ensures Truthful(calls, d)
    ensures RoundsOk(candidates, rounds) && left == Left(candidates, rounds)
    ensures calls == RoundCalls(candidates, rounds) + Refusals(left)
    ensures ok <==> AnySuccess(calls) || pathIsEnd
  {
    calls, left, rounds := [], candidates, [];
    var oneStarted := false;
    while true
      invariant Truthful(calls, d)
      invariant RoundsOk(candidates, rounds) && left == Left(candidates, rounds)
      invariant calls == RoundCalls(candidates, rounds)
      invariant oneStarted <==> AnySuccess(calls)
      decreases |left|
    {
      ghost var before := calls;
      var found, index, success;
      found, index, success, calls := Sweep(left, calls, d);
      if !found {
        SuccessConcat(before, Refusals(left));
        break;
      }
      if success {
        oneStarted := true;
      }
      RoundsExtend(candidates, rounds, Round(index, success));
      RoundSuccess(before, left, Round(index, success));
      rounds := rounds + [Round(index, success)];
      left := left[..index] + left[index + 1..];
    }
    ok := oneStarted || pathIsEnd;
  }

  lemma {:induction false} RoundsExtend(cs: seq<Binding>, rounds: seq<Round>, r: Round)
    requires RoundsOk(cs, rounds) && r.index < |Left(cs, rounds)|
    ensures RoundsOk(cs, rounds + [r])
    ensures Left(cs, rounds + [r]) == Without(Left(cs, rounds), r.index)
    ensures RoundCalls(cs, rounds + [r]) == RoundCalls(cs, rounds) + OneRound(Left(cs, rounds), r)
    decreases |rounds|
  {
    if rounds == [] {
      assert rounds + [r] == [r] && [r][1..] == [];
    } else {
      var next, rest := Without(cs, rounds[0].index), rounds[1..];
      RoundsExtend(next, rest, r);
      RoundsCons(cs, rounds[0], rest);
      RoundsCons(cs, rounds[0], rest + [r]);
      assert rounds == [rounds[0]] + rest && rounds + [r] == [rounds[0]] + (rest + [r]);
      ConcatAssociates(OneRound(cs, rounds[0]), RoundCalls(next, rest), OneRound(Left(next, rest), r));
    }
  }

  lemma RoundsCons(cs: seq<Binding>, r: Round, rest: seq<Round>)
    requires r.index < |cs| && RoundsOk(Without(cs, r.index), rest)
    ensures RoundsOk(cs, [r] + rest) && Left(cs, [r] + rest) == Left(Without(cs, r.index), rest)
    ensures RoundCalls(cs, [r] + rest) == OneRound(cs, r) + RoundCalls(Without(cs, r.index), rest)
  {
    assert ([r] + rest)[1..] == rest;
  }

  lemma ConcatAssociates(x: seq<Call>, y: seq<Call>, z: seq<Call>)
    ensures x + (y + z) == (x + y) + z
  {
  }

  /** A round starts one driver, so that a success in it is the success of its last call. */
  lemma RoundSuccess(calls: seq<Call>, cs: seq<Binding>, r: Round)
    requires r.index < |cs|
    ensures AnySuccess(calls + OneRound(cs, r)) <==> AnySuccess(calls) || r.success
  {
    var round := OneRound(cs, r);
    assert round[|round| - 1] == Started(cs[r.index], r.success);
    SuccessConcat(calls, round);
  }

  lemma SuccessConcat(calls: seq<Call>, calls': seq<Call>)
    ensures AnySuccess(calls + calls') <==> AnySuccess(calls) || AnySuccess(calls')
  {
    if AnySuccess(calls) {
      var k :| 0 <= k < |calls| && calls[k].Started? && calls[k].success;
      assert (calls + calls')[k] == calls[k];
    }
    if AnySuccess(calls') {
      var k :| 0 <= k < |calls'| && calls'[k].Started? && calls'[k].success;
      assert (calls + calls')[|calls| + k] == calls'[k];
    }
  }

  // ---------- the contract determines the search ----------

  /** All calls of a search: its rounds and the last sweep. */
  function AllCalls(cs: seq<Binding>, rounds: seq<Round>): seq<Call>
    requires RoundsOk(cs, rounds)
  {
    RoundCalls(cs, rounds) + Refusals(Left(cs, rounds))
  }

  lemma AllCallsCons(cs: seq<Binding>, rounds: seq<Round>)
    requires RoundsOk(cs, rounds) && rounds != []
    ensures var j := rounds[0].index;
            AllCalls(cs, rounds) == Refusals(cs[..j]) + ([Supported(cs[j], true), Started(cs[j], rounds[0].success)]
                                                         + AllCalls(Without(cs, j), rounds[1..]))
  {
  }

  /** The first sweep of a search, up to candidate `i`. */
  lemma SweepAt(h: seq<Call>, cs: seq<Binding>, rounds: seq<Round>, i: nat)
    requires RoundsOk(cs, rounds) && i < |cs| && (rounds != [] ==> i <= rounds[0].index)
    ensures var t := h + AllCalls(cs, rounds);
            && |t| > |h| + i && t[..|h| + i] == h + Refusals(cs[..i])
            && t[|h| + i] == Supported(cs[i], rounds != [] && rounds[0].index == i)
  {
  }

  /** Where two searches differ first, a driver answered differently. */
  lemma SameIndex(h: seq<Call>, cs: seq<Binding>, rounds: seq<Round>, rounds': seq<Round>, d: Drivers, i: nat)
    requires RoundsOk(cs, rounds) && RoundsOk(cs, rounds')
    requires Truthful(h + AllCalls(cs, rounds), d) && Truthful(h + AllCalls(cs, rounds'), d)
    requires i < |cs| && (rounds != [] ==> i <= rounds[0].index) && (rounds' != [] ==> i <= rounds'[0].index)
    ensures (rounds != [] && rounds[0].index == i) <==> (rounds' != [] && rounds'[0].index == i)
  {
    SweepAt(h, cs, rounds, i);
    SweepAt(h, cs, rounds', i);
  }

  /** For given drivers only one sequence of rounds is truthful. */
  lemma {:induction false} SearchDetermined(
    h: seq<Call>, cs: seq<Binding>, rounds: seq<Round>, rounds': seq<Round>, d: Drivers)
    requires RoundsOk(cs, rounds) && RoundsOk(cs, rounds')
    requires Truthful(h + AllCalls(cs, rounds), d) && Truthful(h + AllCalls(cs, rounds'), d)
    ensures rounds == rounds'
    decreases |cs|
  {
    if rounds != [] || rounds' != [] {
      var i := if rounds == [] then rounds'[0].index
               else if rounds' == [] then rounds[0].index
               else if rounds[0].index < rounds'[0].index then rounds[0].index else rounds'[0].index;
      SameIndex(h, cs, rounds, rounds', d, i);
      var g := h + Refusals(cs[..i]) + [Supported(cs[i], true)];
      FirstStart(h, cs, rounds);
      FirstStart(h, cs, rounds');
      var t, t' := h + AllCalls(cs, rounds), h + AllCalls(cs, rounds');
      assert t[|g|] == Started(cs[i], rounds[0].success) && t'[|g|] == Started(cs[i], rounds'[0].success);
      assert rounds[0] == rounds'[0];
      SearchDetermined(g + [Started(cs[i], rounds[0].success)], Without(cs, i), rounds[1..], rounds'[1..], d);
      assert rounds == [rounds[0]] + rounds[1..] && rounds' == [rounds'[0]] + rounds'[1..];
    }
  }

  /** The first round of a search, after the calls `h`. */
  lemma FirstStart(h: seq<Call>, cs: seq<Binding>, rounds: seq<Round>)
    requires RoundsOk(cs, rounds) && rounds != []
    ensures var i := rounds[0].index;
            var g := h + Refusals(cs[..i]) + [Supported(cs[i], true)];
            var t := h + AllCalls(cs, rounds);
            && t == g + [Started(cs[i], rounds[0].success)] + AllCalls(Without(cs, i), rounds[1..])
            && t[..|g|] == g
  {
    AllCallsCons(cs, rounds);
    var i := rounds[0].index;
    Regroup(
      h, Refusals(cs[..i]), Supported(cs[i], true), Started(cs[i], rounds[0].success),
      AllCalls(Without(cs, i), rounds[1..]));
  }

  lemma Regroup(h: seq<Call>, a: seq<Call>, x: Call, y: Call, rest: seq<Call>)
    ensures var g := h + a + [x];
            var t := h + (a + ([x, y] + rest));
            t == g + [y] + rest && t[..|g|] == g
  {
  }

  /** Every candidate was started or refused; no entry was started twice; the number of calls is bounded. */
  ghost predicate Searched(cs: seq<Binding>, calls: seq<Call>) {
    && (forall b :: b in cs ==> b in StartedDrivers(calls) || Supported(b, false) in calls)
    && multiset(StartedDrivers(calls)) <= multiset(cs)
    && 2 * SupportedCalls(calls) <= |cs| * (|cs| + 1)
  }

  lemma SearchFacts(cs: seq<Binding>, rounds: seq<Round>)
    requires RoundsOk(cs, rounds)
    ensures Searched(cs, AllCalls(cs, rounds))
  {
    var left := Left(cs, rounds);
    var calls := AllCalls(cs, rounds);
    StartedOnce(cs, rounds);
    SupportedBound(cs, rounds);
    RefusalsCounted(left);
    StartedConcat(RoundCalls(cs, rounds), Refusals(left));
    assert StartedDrivers(calls) == StartedDrivers(RoundCalls(cs, rounds));
    forall b | b in cs ensures b in StartedDrivers(calls) || Supported(b, false) in calls {
      assert b in multiset(StartedDrivers(calls)) + multiset(left);
      if b in left {
        var i :| 0 <= i < |left| && left[i] == b;
        assert Refusals(left)[i] == Supported(b, false);
      }
    }
  }
}
