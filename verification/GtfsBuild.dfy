/** The assembly of a surface feed and a rail feed: subset, binding, namespaces, merge and validation. */
module GtfsBuild {
  import opened Basics
  import opened Gtfs
  import opened GtfsMerge
  import opened GtfsRail
  import opened GtfsPlatforms
  import opened GtfsBinding

  datatype BuildError = BadColumns | BadBinding(error: BindError) | BadFeed(fault: Fault)

  lemma SameTaggedCell(p: string, r: Row, q: string, cell: string, c: Column)
    requires c.IsId() && c in TaggedRow(p, r) && TaggedRow(p, r)[c] == Tagged(q, cell)
    requires cell != "" && (p == q || Apart(p, q)) && p != "" && q != ""
    ensures p == q && c in r && r[c] == cell
  {
    if p != q {
      TaggedDisjoint(p, q, r[c], cell);
    } else {
      TaggedInjective(p, r[c], cell);
    }
  }

  /** A parent reference in the merged feed is met by the same feed or not at all. */
  lemma ParentFromOwnFeed(a: Feed, p: string, b: Feed, q: string, stops: set<string>, r: Row)
    requires Apart(p, q) && stops == Ids(Rows(Joint(a, p, b, q), Stops), StopId)
    requires Filled(r, ParentStation) && Tagged(q, r[ParentStation]) in stops
    ensures SoundParent(b, r)
  {
    var cell := r[ParentStation];
    assert p != "" && q != "" && p != q;
    var s :| s in Rows(Joint(a, p, b, q), Stops) && StopId in s && s[StopId] == Tagged(q, cell);
    var fromFirst, origin := JointOrigin(a, p, b, q, Stops, s);
    SameTaggedCell(if fromFirst then p else q, origin, q, cell, StopId);
  }

  lemma OwnParentSound(a: Feed, p: string, b: Feed, q: string, r: Row)
    requires Apart(p, q) && SoundParent(Joint(a, p, b, q), TaggedRow(q, r))
    ensures SoundParent(b, r)
  {
    if Filled(r, ParentStation) {
      var stops := Ids(Rows(Joint(a, p, b, q), Stops), StopId);
      assert TaggedRow(q, r)[ParentStation] == q + r[ParentStation] != "";
      ParentFromOwnFeed(a, p, b, q, stops, r);
    }
  }

  lemma MergedParentsSound(a: Feed, p: string, b: Feed, q: string)
    requires Apart(p, q)
    requires forall r :: r in Rows(Joint(a, p, b, q), Stops) ==> SoundParent(Joint(a, p, b, q), r)
    ensures forall r :: r in Rows(b, Stops) ==> SoundParent(b, r)
  {
    PartsOfJoint(a, p, b, q);
    forall r | r in Rows(b, Stops) ensures SoundParent(b, r) {
      assert TaggedRow(q, r) in Rows(Joint(a, p, b, q), Stops);
      OwnParentSound(a, p, b, q, r);
    }
  }

  /** What is validated: the surface feed and the bound rail subset, each under its prefix. */
  function Assembled(surface: Feed, bound: Feed): Feed {
    Merged(Namespaced(surface, "td:"), Namespaced(bound, "rail:"))
  }

  lemma AssembledParents(surface: Feed, bound: Feed, seconds: Reader)
    requires ValidFeed(Assembled(surface, bound), seconds)
    ensures forall r :: r in Rows(bound, Stops) ==> SoundParent(bound, r)
  {
    assert "td:"[0] == 't' && "rail:"[0] == 'r';
    MergedParentsSound(surface, "td:", bound, "rail:");
  }

  /** From two valid source feeds, and whatever places the stops are bound to, the assembled feed passes validation
      exactly when every kept rail stop keeps its parent and no key table has an empty identifier on both sides. */
  lemma BuildValidIff(surface: Feed, railFeed: Feed, bound: Feed, seconds: Reader)
    requires ValidFeed(surface, seconds) && ValidFeed(railFeed, seconds)
    requires RailSubset(railFeed).Ok? && Rebound(RailSubset(railFeed).value, bound)
    ensures Verdict(Assembled(surface, bound), seconds).None?
            <==> ParentsStay(railFeed) && !SharesEmptyKey(surface, RailSubset(railFeed).value)
  {
    var rail := RailSubset(railFeed).value;
    AcceptsExactlyValid(Assembled(surface, bound), seconds);
    SubsetValidIff(railFeed, seconds);
    BindingKeepsValidity(rail, bound, seconds);
    if ValidFeed(bound, seconds) {
      SurfaceAndRailMerge(surface, bound, seconds);
    }
    if ValidFeed(Assembled(surface, bound), seconds) {
      AssembledParents(surface, bound, seconds);
      ReboundParents(rail, bound);
      SubsetReferences(railFeed, seconds);
    }
  }

  /** The feed is the surface feed and the rail subset with places bound to its stops. */
  ghost predicate IsAssembled(surface: Feed, railFeed: Feed, feed: Feed)
    requires Subscriptable(railFeed)
  {
    exists bound :: Rebound(RailSubset(railFeed).value, bound) && feed == Assembled(surface, bound)
  }

  datatype Output = Output(feed: Feed, bindings: seq<Binding>)

  ghost predicate BindingsResolve(output: Output, write: real -> string) {
    forall b :: b in output.bindings ==> NamesStop(b, output.feed, write)
  }

  /** What each result means for the two source feeds. */
  ghost predicate IsBuilt(surface: Feed, railFeed: Feed, sources: Sources, seconds: Reader,
                          result: Result<Output, BuildError>)
  {
    match result
    case Ok(output) =>
      && ValidFeed(output.feed, seconds) && BindingsResolve(output, sources.write)
      && Subscriptable(railFeed) && IsAssembled(surface, railFeed, output.feed)
    case Err(BadColumns) => !Subscriptable(railFeed)
    case Err(BadBinding(error)) => Subscriptable(railFeed) && (ValidFeed(railFeed, seconds) ==> error.Unbindable?)
    case Err(BadFeed(_)) =>
      Subscriptable(railFeed)
      && (ValidFeed(surface, seconds) && ValidFeed(railFeed, seconds) ==>
            !ParentsStay(railFeed) || SharesEmptyKey(surface, RailSubset(railFeed).value))
  }

  lemma StillNamed(b: Binding, surface: Feed, bound: Feed, write: real -> string)
    requires NamesStop(b, Namespaced(bound, "rail:"), write)
    ensures NamesStop(b, Assembled(surface, bound), write)
  {
    PartsOfJoint(surface, "td:", bound, "rail:");
    var r :| r in Rows(Namespaced(bound, "rail:"), Stops)
             && StopId in r && r[StopId] == b.stop && HasPlace(r, b, write);
  }

  lemma BuiltBindingsResolve(surface: Feed, rail: Feed, sources: Sources, bound: Feed, bindings: seq<Binding>)
    requires Stops in rail && IsBinding(rail, sources, Ok((bound, bindings)))
    ensures BindingsResolve(Output(Assembled(surface, bound), bindings), sources.write)
  {
    forall b | b in bindings ensures NamesStop(b, Assembled(surface, bound), sources.write) {
      BindingsNameStops(rail, sources, bound, bindings, b);
      StillNamed(b, surface, bound, sources.write);
    }
  }

  lemma SubsetHasColumns(railFeed: Feed)
    requires Subscriptable(railFeed)
    ensures var rail := RailSubset(railFeed).value; Stops in rail && AllHave(Rows(rail, StopTimes), StopId)
  {
    var kept := KeptOf(railFeed);
    forall r | r in Rows(RailSubset(railFeed).value, StopTimes) ensures StopId in r {
      assert r in railFeed[StopTimes] && Keeps(kept, StopTimes, r);
    }
  }

  /** What the merged feed is, and the one reason why it can be refused. */
  lemma AssembledResult(surface: Feed, railFeed: Feed, sources: Sources, seconds: Reader, bound: Feed,
                        bindings: seq<Binding>)
    requires Subscriptable(railFeed)
    requires var rail := RailSubset(railFeed).value; Stops in rail && IsBinding(rail, sources, Ok((bound, bindings)))
    ensures var feed := Assembled(surface, bound);
      match Verdict(feed, seconds)
      case None => IsBuilt(surface, railFeed, sources, seconds, Ok(Output(feed, bindings)))
      case Some(fault) => IsBuilt(surface, railFeed, sources, seconds, Err(BadFeed(fault)))
  {
    var rail := RailSubset(railFeed).value;
    BoundIsRebound(rail, bound, UsedStops(rail), Placing(rail, sources), sources.write);
    BuiltBindingsResolve(surface, rail, sources, bound, bindings);
    AcceptsExactlyValid(Assembled(surface, bound), seconds);
    if ValidFeed(surface, seconds) && ValidFeed(railFeed, seconds) {
      BuildValidIff(surface, railFeed, bound, seconds);
    }
  }

  /** From a valid rail feed binding raises only for a stop without a place. */
  lemma OnlyUnbindable(railFeed: Feed, sources: Sources, seconds: Reader, error: BindError)
    requires Subscriptable(railFeed) && ValidFeed(railFeed, seconds)
    requires var rail := RailSubset(railFeed).value; Stops in rail && IsBinding(rail, sources, Err(error))
    ensures error.Unbindable?
  {
    var rail := RailSubset(railFeed).value;
    SubsetKeyed(railFeed, KeptOf(railFeed), Stops, StopId);
    SubsetReferences(railFeed, seconds);
    CountAgrees(rail);
    if error.LostTrip? { LinesKnown(rail, error.stopTime); }
  }

  /** The whole build: it fails in the subset, in binding or in validation, or leaves a valid feed all of whose bindings
      name its stops; from valid sources each failure has the one reason given. */
  method Build(surface: Feed, railFeed: Feed, sources: Sources, seconds: Reader)
    returns (result: Result<Output, BuildError>)
    ensures IsBuilt(surface, railFeed, sources, seconds, result)
  {
    if !Subscriptable(railFeed) { return Err(BadColumns); }
    SubsetHasColumns(railFeed);
    var rail := RailSubset(railFeed).value;
    var binding := BindPlatforms(rail, sources);
    if binding.Err? {
      if ValidFeed(railFeed, seconds) { OnlyUnbindable(railFeed, sources, seconds, binding.error); }
      return Err(BadBinding(binding.error));
    }
    var (bound, bindings) := binding.value;
    AssembledResult(surface, railFeed, sources, seconds, bound, bindings);
    var feed := Assembled(surface, bound);
    var fault := Validate(feed, seconds);
    if fault.Some? { return Err(BadFeed(fault.value)); }
    result := Ok(Output(feed, bindings));
  }
}
