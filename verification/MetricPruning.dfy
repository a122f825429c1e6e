/** Which label combinations the metrics exporter still exports: `_prune_cycle` and the update
    functions of the host, guest, service and APT groups. */
module MetricPruning {

  const GAP := 30.0

  type Labels = seq<string>

  /** One call of a group's update function. */
  datatype Call = Call(labels: Labels, at: real)

  /** `_cycle_state[group]`. */
  datatype Cycle = Cycle(cycleStart: real, lastCall: real, seen: map<Labels, real>)

  // ---- Refresh cycles, read off the calls of a group -------------------------------------------

  predicate Timely(calls: seq<Call>) { forall i | 0 < i < |calls| :: calls[i - 1].at <= calls[i].at }

  /** Call `i` is the first one of a cycle. */
  predicate Starts(calls: seq<Call>, i: nat)
    requires i < |calls|
  {
    i == 0 || calls[i].at - calls[i - 1].at > 30.0
  }

  /** The first call of the last cycle. */
  function Current(calls: seq<Call>): (r: nat)
    requires calls != []
    ensures r < |calls| && Starts(calls, r) && forall i | r < i < |calls| :: !Starts(calls, i)
  {
    var n := |calls| - 1;
    if Starts(calls, n) then n else
      var r := Current(calls[..n]);
      assert forall i | r < i < n :: Starts(calls, i) == Starts(calls[..n], i);
      r
  }

  /** The first call of the cycle before the last one, or of the last one if there is no other. */
  function Previous(calls: seq<Call>): (r: nat)
    requires calls != []
    ensures r <= Current(calls)
  {
    if Current(calls) == 0 then 0 else Current(calls[..Current(calls)])
  }

  /** The label combinations of the calls from `from` on. */
  function Touched(calls: seq<Call>, from: nat): set<Labels> {
    set i | from <= i < |calls| :: calls[i].labels
  }

  lemma TouchedMore(calls: seq<Call>, from: nat, call: Call)
    requires from <= |calls|
    ensures Touched(calls + [call], from) == Touched(calls, from) + {call.labels}
  {
    var more := calls + [call];
    forall l | l in Touched(calls, from) ensures l in Touched(more, from) {
      var i :| from <= i < |calls| && calls[i].labels == l;
      assert more[i].labels == l;
    }
    assert more[|calls|].labels in Touched(more, from);
  }

  lemma CurrentMore(calls: seq<Call>, call: Call)
    requires calls != []
    ensures var more := calls + [call];
            if call.at - calls[|calls| - 1].at > GAP
            then Current(more) == |calls| && Previous(more) == Current(calls)
            else Current(more) == Current(calls) && Previous(more) == Previous(calls)
  {
    var more := calls + [call];
    assert more[..|calls|] == calls;
    assert Starts(more, |calls|) == (call.at - calls[|calls| - 1].at > GAP);
    if !Starts(more, |calls|) && Current(calls) > 0 {
      assert more[..Current(calls)] == calls[..Current(calls)];
    }
  }

  // ---- One group -------------------------------------------------------------------------------

  /** The state of a group against its calls: it has seen what was touched since the start of the
      previous cycle, and knows which of it was touched in the current one. */
  predicate Reflects(c: Cycle, calls: seq<Call>) {
    && calls != [] && Timely(calls)
    && c.lastCall == calls[|calls| - 1].at && c.cycleStart <= c.lastCall
    && c.seen.Keys == Touched(calls, Previous(calls))
    && (forall l | l in c.seen :: c.seen[l] <= c.lastCall)
    && (forall l | l in c.seen :: c.seen[l] >= c.cycleStart <==> l in Touched(calls, Current(calls)))
  }

  predicate Boundary(c: Cycle, now: real) { now - c.lastCall > GAP }

  /** The label combinations pruned at a boundary. */
  function Stale(c: Cycle): set<Labels> { set l | l in c.seen && c.seen[l] < c.cycleStart }

  function Fresh(labels: Labels, now: real): Cycle { Cycle(now, now, map[labels := now]) }

  function Advanced(c: Cycle, labels: Labels, now: real): Cycle {
    if Boundary(c, now) then Cycle(now, now, (c.seen - Stale(c))[labels := now])
    else Cycle(c.cycleStart, now, c.seen[labels := now])
  }

  lemma TimelyMore(calls: seq<Call>, call: Call)
    requires calls != [] && Timely(calls) && calls[|calls| - 1].at <= call.at
    ensures Timely(calls + [call])
  {}

  lemma FirstCall(labels: Labels, now: real)
    ensures Reflects(Fresh(labels, now), [] + [Call(labels, now)])
  {
    var calls := [] + [Call(labels, now)];
    assert Starts(calls, 0) && Current(calls) == 0 && Previous(calls) == 0;
    assert calls[0].labels in Touched(calls, 0);
  }

  /** What is pruned at a boundary was touched in the cycle before the one that just finished, and not
      in that one; what is left is what was touched in it. */
  lemma StaleMeans(c: Cycle, calls: seq<Call>)
    requires Reflects(c, calls)
    ensures Stale(c) == Touched(calls, Previous(calls)) - Touched(calls, Current(calls))
    ensures (c.seen - Stale(c)).Keys == Touched(calls, Current(calls))
  {
    hide Starts, Timely;
    forall l | l in Touched(calls, Current(calls)) ensures l in Touched(calls, Previous(calls)) {
      var i :| Current(calls) <= i < |calls| && calls[i].labels == l;
    }
  }

  lemma NextCall(c: Cycle, calls: seq<Call>, labels: Labels, now: real)
    requires Reflects(c, calls) && c.lastCall <= now
    ensures Reflects(Advanced(c, labels, now), calls + [Call(labels, now)])
  {
    hide Starts, Timely, Current, Previous, Touched, Stale;
    var call := Call(labels, now);
    var more, d := calls + [call], Advanced(c, labels, now);
    TimelyMore(calls, call);
    CurrentMore(calls, call);
    StaleMeans(c, calls);
    if Boundary(c, now) {
      TouchedMore(calls, Current(calls), call);
      NothingTouched(calls);
      TouchedMore(calls, |calls|, call);
      assert d.seen.Keys == Touched(more, Previous(more));
    } else {
      TouchedMore(calls, Current(calls), call);
      TouchedMore(calls, Previous(calls), call);
      assert d.seen.Keys == Touched(more, Previous(more));
    }
  }

  lemma NothingTouched(calls: seq<Call>)
    ensures Touched(calls, |calls|) == {}
  {}

  // ---- All groups ------------------------------------------------------------------------------

  /** The series each collector exports. */
  type Series = map<string, set<Labels>>

  /** The collectors of a group; no collector belongs to two groups. */
  type Groups = map<string, seq<string>>

  predicate Disjoint(groups: Groups) {
    forall g, h | g in groups && h in groups && g != h :: forall c | c in groups[g] :: c !in groups[h]
  }

  function Exported(series: Series, c: string): set<Labels> { if c in series then series[c] else {} }

  /** `collector.remove`, which does nothing for a series that is not there. */
  function Removed(series: Series, c: string, labels: Labels): Series {
    if c in series then series[c := series[c] - {labels}] else series
  }

  method RemoveLabels(series: Series, collectors: seq<string>, labels: Labels) returns (after: Series)
    ensures forall c :: Exported(after, c) == Exported(series, c) - if c in collectors then {labels} else {}
  {
    after := series;
    for i := 0 to |collectors|
      invariant forall c :: Exported(after, c) == Exported(series, c) - if c in collectors[..i] then {labels} else {}
    {
      assert collectors[..i + 1] == collectors[..i] + [collectors[i]];
      after := Removed(after, collectors[i], labels);
    }
    assert collectors[..|collectors|] == collectors;
  }

  /** The `for lbl in stale` loop. */
  method RemoveAll(series: Series, collectors: seq<string>, stale: set<Labels>) returns (after: Series)
    ensures forall c :: Exported(after, c) == Exported(series, c) - if c in collectors then stale else {}
  {
    hide Exported;
    after := series;
    var rest := stale;
    while rest != {}
      invariant rest <= stale
      invariant forall c :: Exported(after, c) == Exported(series, c) - if c in collectors then stale - rest else {}
      decreases |rest|
    {
      var labels :| labels in rest;
      after := RemoveLabels(after, collectors, labels);
      rest := rest - {labels};
    }
    assert stale - {} == stale;
  }

  /** The state of one group, the series of its collectors and its calls belong together. */
  predicate GroupValid(collectors: seq<string>, state: map<string, Cycle>, series: Series,
                       calls: map<string, seq<Call>>, clock: real, g: string)
  {
    && (g in state <==> g in calls)
    && (g in state ==> Reflects(state[g], calls[g]) && state[g].lastCall <= clock)
    && forall c | c in collectors :: Exported(series, c) <= Seen(state, g)
  }

  function Seen(state: map<string, Cycle>, g: string): set<Labels> { if g in state then state[g].seen.Keys else {} }

  function CallsOf(calls: map<string, seq<Call>>, g: string): seq<Call> { if g in calls then calls[g] else [] }

  /** What a collector of the group exports after its pruning step. */
  function Left(calls: seq<Call>, now: real, before: set<Labels>): set<Labels> {
    if calls != [] && now - calls[|calls| - 1].at > GAP then before * Touched(calls, Current(calls)) else before
  }

  /** A call at `now` begins a new cycle. */
  predicate AfterBoundary(calls: seq<Call>, now: real): (b: bool)
    ensures b ==> calls != []
  {
    calls != [] && now - calls[|calls| - 1].at > 30.0
  }

  /** A call of the last cycle was for that label combination. */
  predicate TouchedIn(calls: seq<Call>, l: Labels)
    requires calls != []
  {
    exists i | Current(calls) <= i < |calls| :: calls[i].labels == l
  }

  /** What a scraper sees of a call: a series of the group goes exactly if the call is the first one after
      a cycle that did not touch it, and comes exactly if the call gave it. */
  ghost predicate PrunedAtBoundary(was: Series, after: Series, collectors: seq<string>, calls: seq<Call>,
                                   labels: Labels, given: seq<string>, now: real)
  {
    forall c, l | c in collectors ::
      l in Exported(after, c) <==>
      || (l in Exported(was, c) && (AfterBoundary(calls, now) ==> TouchedIn(calls, l)))
      || (l == labels && c in given)
  }

  lemma PrunedMeans(was: Series, after: Series, collectors: seq<string>, calls: seq<Call>,
                                       labels: Labels, given: seq<string>, now: real)
    requires forall c | c in collectors ::
               Exported(after, c) == Left(calls, now, Exported(was, c)) + if c in given then {labels} else {}
    ensures PrunedAtBoundary(was, after, collectors, calls, labels, given, now)
  {
    hide Exported, Left, AfterBoundary, TouchedIn;
    forall c, l | c in collectors
      ensures l in Exported(after, c) <==>
              || (l in Exported(was, c) && (AfterBoundary(calls, now) ==> TouchedIn(calls, l)))
              || (l == labels && c in given)
    {
      LeftIs(calls, now, Exported(was, c), l);
    }
  }

  lemma LeftIs(calls: seq<Call>, now: real, before: set<Labels>, l: Labels)
    ensures l in Left(calls, now, before) <==> l in before && (AfterBoundary(calls, now) ==> TouchedIn(calls, l))
  {}

  lemma LeftMeans(c: Cycle, calls: seq<Call>, now: real, before: set<Labels>)
    requires Reflects(c, calls) && before <= c.seen.Keys
    ensures Left(calls, now, before) == if Boundary(c, now) then before - Stale(c) else before
  {
    hide Current, Previous, Touched, Stale;
    StaleMeans(c, calls);
  }

  function Stepped(state: map<string, Cycle>, g: string, labels: Labels, now: real): map<string, Cycle> {
    state[g := if g in state then Advanced(state[g], labels, now) else Fresh(labels, now)]
  }

  function Gone(state: map<string, Cycle>, g: string, now: real): set<Labels> {
    if g in state && Boundary(state[g], now) then Stale(state[g]) else {}
  }

  lemma OwnGroup(collectors: seq<string>, state: map<string, Cycle>, series: Series,
                                    calls: map<string, seq<Call>>, clock: real, g: string,
                                    labels: Labels, now: real, after: Series)
    requires GroupValid(collectors, state, series, calls, clock, g) && clock <= now
    requires forall c | c in collectors ::
               || Exported(after, c) == Exported(series, c) - Gone(state, g, now)
               || Exported(after, c) == Exported(series, c) - Gone(state, g, now) + {labels}
    ensures GroupValid(collectors, Stepped(state, g, labels, now), after,
                       calls[g := CallsOf(calls, g) + [Call(labels, now)]], now, g)
    ensures forall c | c in collectors ::
              Exported(series, c) - Gone(state, g, now) == Left(CallsOf(calls, g), now, Exported(series, c))
  {
    hide Stale, Exported, Reflects;
    if g in state {
      NextCall(state[g], calls[g], labels, now);
      LastCallIs(state[g], calls[g]);
      forall c | c in collectors ensures Exported(series, c) - Gone(state, g, now) == Left(calls[g], now, Exported(series, c)) {
        LeftMeans(state[g], calls[g], now, Exported(series, c));
      }
    } else {
      FirstCall(labels, now);
    }
  }

  lemma LastCallIs(c: Cycle, calls: seq<Call>)
    requires Reflects(c, calls)
    ensures calls != [] && c.lastCall == calls[|calls| - 1].at
  {}

  lemma OtherGroup(collectors: seq<string>, state: map<string, Cycle>, series: Series,
                                      calls: map<string, seq<Call>>, clock: real, g: string,
                                      cycle: Cycle, more: seq<Call>, h: string, now: real, after: Series)
    requires GroupValid(collectors, state, series, calls, clock, h) && g != h && clock <= now
    requires forall c | c in collectors :: Exported(after, c) == Exported(series, c)
    ensures GroupValid(collectors, state[g := cycle], after, calls[g := more], now, h)
  {
    hide Exported, Reflects;
  }

  class Exporter {
    const groups: Groups
    var state: map<string, Cycle>
    var series: Series

    ghost var calls: map<string, seq<Call>>
    ghost var clock: real

    ghost predicate Valid()
      reads this
    {
      Disjoint(groups) && forall g | g in groups :: GroupValid(groups[g], state, series, calls, clock, g)
    }

    constructor (groups: Groups, now: real)
      requires Disjoint(groups)
      ensures Valid() && this.groups == groups && state == map[] && series == map[] && calls == map[] && clock == now
    {
      this.groups := groups;
      state, series := map[], map[];
      calls, clock := map[], now;
    }

    /** `_prune_cycle`. */
    method PruneCycle(group: string, labels: Labels, now: real)
      requires group in groups && (group in state ==> state[group].lastCall <= now)
      modifies this`state, this`series
      ensures state == Stepped(old(state), group, labels, now)
      ensures forall c :: Exported(series, c) ==
                Exported(old(series), c) - if c in groups[group] then Gone(old(state), group, now) else {}
    {
      hide Stale, Exported;
      var cycle := if group in state then state[group] else Cycle(now, now, map[]);
      if now - cycle.lastCall > GAP {
        series := RemoveAll(series, groups[group], Stale(cycle));
        cycle := cycle.(seen := cycle.seen - Stale(cycle), cycleStart := now);
      }
      cycle := cycle.(lastCall := now, seen := cycle.seen[labels := now]);
      state := state[group := cycle];
    }

    /** An update function of the group, up to where it returns or is interrupted by an exception:
        `set` are the collectors it gave a series. The lock makes it one step. */
    method Update(group: string, labels: Labels, set_: seq<string>, now: real)
      requires Valid() && group in groups && clock <= now && forall c | c in set_ :: c in groups[group]
      modifies this
      ensures Valid() && clock == now
      ensures calls == old(calls)[group := CallsOf(old(calls), group) + [Call(labels, now)]]
      ensures forall h | h != group :: Seen(state, h) == Seen(old(state), h)
      ensures forall c | c in groups[group] :: Exported(series, c) ==
                Left(CallsOf(old(calls), group), now, Exported(old(series), c)) + if c in set_ then {labels} else {}
      ensures forall c | c !in groups[group] :: Exported(series, c) == Exported(old(series), c)
      ensures PrunedAtBoundary(old(series), series, groups[group], CallsOf(old(calls), group), labels, set_, now)
    {
      hide Stale, Exported, Reflects, Advanced, Fresh, Left, GroupValid, Gone, PrunedAtBoundary;
      ghost var earlier := CallsOf(calls, group);
      GroupCalls(groups[group], state, series, calls, clock, group);
      PruneCycle(group, labels, now);
      ghost var pruned, stepped := series, state;
      for i := 0 to |set_|
        invariant state == stepped && calls == old(calls) && clock == old(clock)
        invariant forall c :: Exported(series, c) == Exported(pruned, c) + if c in set_[..i] then {labels} else {}
      {
        assert set_[..i + 1] == set_[..i] + [set_[i]];
        series := Added(series, set_[i], labels);
      }
      assert set_[..|set_|] == set_;
      OwnGroup(groups[group], old(state), old(series), calls, clock, group, labels, now, series);
      forall h | h in groups && h != group
        ensures GroupValid(groups[h], state, series, calls[group := earlier + [Call(labels, now)]], now, h)
      {
        OtherGroup(groups[h], old(state), old(series), calls, clock, group, state[group],
                   earlier + [Call(labels, now)], h, now, series);
      }
      calls := calls[group := earlier + [Call(labels, now)]];
      clock := now;
      PrunedMeans(old(series), series, groups[group], earlier, labels, set_, now);
    }
  }

  lemma GroupCalls(collectors: seq<string>, state: map<string, Cycle>, series: Series,
                                      calls: map<string, seq<Call>>, clock: real, g: string)
    requires GroupValid(collectors, state, series, calls, clock, g)
    ensures g in state ==> state[g].lastCall <= clock
  {}

  function Added(series: Series, c: string, labels: Labels): (after: Series)
    ensures forall d :: Exported(after, d) == Exported(series, d) + if d == c then {labels} else {}
  {
    series[c := Exported(series, c) + {labels}]
  }

  // ---- UniFi: the caller passes the full list on every call ------------------------------------

  /** `update_unifi_device_metrics` and its like, for one site and one kind of series. */
  class Site {
    const collectors: seq<string>
    var recorded: set<Labels>
    var series: Series

    /** Exported by a call that an exception cut short, and on no list recorded since. */
    ghost var leaked: set<Labels>

    ghost predicate Valid()
      reads this
    {
      forall c | c in collectors :: Exported(series, c) <= recorded + leaked
    }

    constructor (collectors: seq<string>)
      ensures Valid() && this.collectors == collectors && recorded == {} && series == map[] && leaked == {}
    {
      this.collectors := collectors;
      recorded, series, leaked := {}, map[], {};
    }

    /** The call got as far as giving series to `given`, each for an entry of the list; with `raised`
        an exception stopped it there. Then the stale series stay, and the list is not recorded. */
    method Update(given: seq<(string, Labels)>, listed: set<Labels>, raised: bool)
      requires Valid() && forall p | p in given :: p.0 in collectors && p.1 in listed
      modifies this
      ensures Valid()
      ensures recorded == if raised then old(recorded) else listed
      ensures leaked == if raised then old(leaked) + listed else old(leaked) - old(recorded) - listed
      ensures forall c | c in collectors :: Exported(series, c) ==
                Exported(old(series), c) + Given(given, c) - if raised then {} else old(recorded) - listed
      ensures !raised ==> forall c, l | c in collectors && l in Exported(old(series), c) && l !in listed ::
                l !in Exported(series, c) <==> l in old(recorded)
    {
      hide Exported, Given;
      GivenNone(given);
      for i := 0 to |given|
        invariant recorded == old(recorded) && leaked == old(leaked)
        invariant forall c :: Exported(series, c) == Exported(old(series), c) + Given(given[..i], c)
      {
        assert given[..i + 1] == given[..i] + [given[i]];
        GivenMore(given[..i], given[i]);
        series := Added(series, given[i].0, given[i].1);
      }
      assert given[..|given|] == given;
      GivenListed(given, listed);
      if raised {
        leaked := leaked + listed;
        return;
      }
      series := RemoveAll(series, collectors, recorded - listed);
      leaked := leaked - recorded - listed;
      recorded := listed;
    }
  }

  function Given(given: seq<(string, Labels)>, c: string): set<Labels> { set p | p in given && p.0 == c :: p.1 }

  lemma GivenNone(given: seq<(string, Labels)>)
    ensures forall c :: Given(given[..0], c) == {}
  {}

  lemma GivenMore(given: seq<(string, Labels)>, p: (string, Labels))
    ensures forall c :: Given(given + [p], c) == Given(given, c) + if c == p.0 then {p.1} else {}
  {
    assert p in given + [p];
    forall c ensures Given(given + [p], c) == Given(given, c) + if c == p.0 then {p.1} else {} {
      forall l | l in Given(given, c) ensures l in Given(given + [p], c) {
        var q :| q in given && q.0 == c && q.1 == l;
        assert q in given + [p];
      }
    }
  }

  lemma GivenListed(given: seq<(string, Labels)>, listed: set<Labels>)
    requires forall p | p in given :: p.1 in listed
    ensures forall c :: Given(given, c) <= listed
  {}
}
