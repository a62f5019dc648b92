/** The upgrade-skip guard (`checkUpgradePath`) and the walk of an operator who follows its suggestions. */
module UpgradePath {
  import opened Text
  import opened Versions

  datatype UpgradeMeta = UpgradeMeta(minFromVersion: Option<string>, waypoints: Option<seq<string>>)

  datatype Code = MinFromVersion | WaypointRequired

  /** The message text is not modelled. */
  datatype Verdict = Ok | Refused(code: Code, suggestedVersion: string)

  /** A version that is present and not the empty string, which the source's truthiness tests treat as absent. */
  predicate Known(v: Option<string>) { v.Some? && v.value != "" }

  predicate Between(w: string, low: string, high: string) {
    Newer(w, low) && Newer(high, w)
  }

  /** `waypoints.filter(...)`. */
  function Required(waypoints: seq<string>, low: string, high: string): seq<string> {
    if waypoints == [] then []
    else
      var rest := Required(waypoints[1..], low, high);
      if Between(waypoints[0], low, high) then [waypoints[0]] + rest else rest
  }

  /** Put `x` in front of the first element that is not older. */
  function Insert(x: string, sorted: seq<string>): (r: seq<string>)
    ensures |r| == |sorted| + 1
  {
    if sorted == [] || Compare(x, sorted[0]) <= 0 then [x] + sorted
    else [sorted[0]] + Insert(x, sorted[1..])
  }

  /** `sort(compareVersions)`, which is stable. */
  function StableSort(xs: seq<string>): (r: seq<string>)
    ensures |r| == |xs|
  {
    if xs == [] then [] else Insert(xs[0], StableSort(xs[1..]))
  }

  function WaypointsOf(meta: UpgradeMeta): seq<string> {
    if meta.waypoints.Some? then meta.waypoints.value else []
  }

  function CheckUpgradePath(from: Option<string>, to: Option<string>, meta: Option<UpgradeMeta>): Verdict {
    if meta.None? || !Known(from) || !Known(to) then Ok
    else if !Newer(to.value, from.value) then Ok
    else if FloorApplies(from.value, meta.value) then
      Refused(MinFromVersion, meta.value.minFromVersion.value)
    else
      var stops := StableSort(Required(WaypointsOf(meta.value), from.value, to.value));
      if stops != [] && stops[0] != "" then Refused(WaypointRequired, stops[0]) else Ok
  }

  predicate FloorApplies(from: string, meta: UpgradeMeta) {
    Known(meta.minFromVersion) && Newer(meta.minFromVersion.value, from)
  }

  // ---------------------------------------------------------------------------
  // The next stop
  // ---------------------------------------------------------------------------

  lemma {:induction false} RequiredMembers(ws: seq<string>, low: string, high: string)
    ensures forall w :: w in Required(ws, low, high) <==> w in ws && Between(w, low, high)
  {
    hide Newer;
    if ws != [] {
      RequiredMembers(ws[1..], low, high);
      assert ws == [ws[0]] + ws[1..];
    }
  }

  /** `xs[k]` is the first-listed among the lowest entries. */
  ghost predicate IsFirstLowest(xs: seq<string>, k: int) {
    && 0 <= k < |xs|
    && forall j | 0 <= j < |xs| :: !Newer(xs[k], xs[j]) && (j < k ==> Newer(xs[j], xs[k]))
  }

  lemma {:induction false} SortHead(xs: seq<string>) returns (k: int)
    requires xs != []
    ensures IsFirstLowest(xs, k) && StableSort(xs)[0] == xs[k]
  {
    hide Compare;
    k := 0;
    CompareReflexive(xs[0]);
    if |xs| > 1 {
      var k' := SortHead(xs[1..]);
      var h := xs[1..][k'];
      CompareAntisymmetric(xs[0], h);
      if Compare(xs[0], h) > 0 {
        k := k' + 1;
        assert forall j | 1 <= j < |xs| :: xs[j] == xs[1..][j - 1];
      } else {
        forall j | 1 <= j < |xs|
          ensures !Newer(xs[0], xs[j])
        {
          assert xs[j] == xs[1..][j - 1];
          NewerIsStrictOrder(xs[0], h, xs[j]);
          NewerIsStrictOrder(xs[j], h, xs[0]);
        }
      }
    }
  }

  /** The next stop: required, no required waypoint below it. */
  lemma NextStop(ws: seq<string>, low: string, high: string) returns (next: string)
    requires Required(ws, low, high) != []
    ensures next == StableSort(Required(ws, low, high))[0]
    ensures next in ws && Between(next, low, high)
    ensures forall w | w in ws && Between(w, low, high) :: !Newer(next, w)
  {
    hide Newer;
    var req := Required(ws, low, high);
    RequiredMembers(ws, low, high);
    var k := SortHead(req);
    next := req[k];
    forall w | w in ws && Between(w, low, high)
      ensures !Newer(next, w)
    {
      assert w in req;
      var j :| 0 <= j < |req| && req[j] == w;
    }
  }

  // ---------------------------------------------------------------------------
  // Following the suggestions
  // ---------------------------------------------------------------------------

  /** Raising the lower bound only removes requirements, and removes `gone` for good. */
  lemma {:induction false} RequiredShrinks(ws: seq<string>, low: string, low': string, high: string)
    requires !Newer(low, low')
    ensures |Required(ws, low', high)| <= |Required(ws, low, high)|
    ensures (exists w :: w in ws && Between(w, low, high) && !Newer(w, low')) ==>
              |Required(ws, low', high)| < |Required(ws, low, high)|
  {
    hide Newer;
    if ws != [] {
      RequiredShrinks(ws[1..], low, low', high);
      NewerIsStrictOrder(ws[0], low', low);
      assert ws == [ws[0]] + ws[1..];
    }
  }

  /** How many stops can still lie ahead. */
  function StopsAhead(from: string, to: string, meta: UpgradeMeta): nat {
    (if FloorApplies(from, meta) then 1 else 0) + |Required(WaypointsOf(meta), from, to)|
  }

  function Judge(from: string, to: string, meta: UpgradeMeta): Verdict {
    CheckUpgradePath(Some(from), Some(to), Some(meta))
  }

  /** What a refusal means: an upgrade between known versions that must first reach the floor or a waypoint. */
  lemma RefusalMeans(from: string, to: string, meta: UpgradeMeta)
    requires Judge(from, to, meta).Refused?
    ensures from != "" && to != "" && Newer(to, from)
    ensures var next := Judge(from, to, meta).suggestedVersion;
            && next != "" && Newer(next, from)
            && (if FloorApplies(from, meta) then next == meta.minFromVersion.value
                else next in WaypointsOf(meta) && Newer(to, next))
    ensures Judge(from, to, meta).code == if FloorApplies(from, meta) then MinFromVersion else WaypointRequired
  {
    hide Newer;
    if !FloorApplies(from, meta) {
      var n := NextStop(WaypointsOf(meta), from, to);
    }
  }

  /** Each suggestion is a strict step up and uses up one of the stops ahead. */
  lemma SuggestionAdvances(from: string, to: string, meta: UpgradeMeta)
    requires Judge(from, to, meta).Refused?
    ensures var next := Judge(from, to, meta).suggestedVersion;
            && next != "" && Newer(next, from)
            && StopsAhead(next, to, meta) < StopsAhead(from, to, meta)
  {
    hide Newer, CheckUpgradePath;
    var next := Judge(from, to, meta).suggestedVersion;
    RefusalMeans(from, to, meta);
    NewerIsStrictOrder(next, from, next);
    RequiredShrinks(WaypointsOf(meta), from, next, to);
    if Known(meta.minFromVersion) {
      NewerIsStrictOrder(meta.minFromVersion.value, next, from);
    }
  }

  /** The versions an operator passes through by promoting to each suggestion until the verdict is `Ok`. */
  function Walk(from: string, to: string, meta: UpgradeMeta): seq<string>
    decreases StopsAhead(from, to, meta)
  {
    if Judge(from, to, meta).Ok? then []
    else
      var next := Judge(from, to, meta).suggestedVersion;
      SuggestionAdvances(from, to, meta);
      [next] + Walk(next, to, meta)
  }

  /** Position `i` of a walk, position 0 being its start. */
  function At(from: string, path: seq<string>, i: nat): string
    requires i <= |path|
  {
    if i == 0 then from else path[i - 1]
  }

  /** The walk ends at an `Ok` verdict, climbs strictly, and is at most one stop longer than the waypoint list. */
  lemma {:induction false} WalkTerminatesClimbing(from: string, to: string, meta: UpgradeMeta)
    ensures var path := Walk(from, to, meta);
            && Judge(At(from, path, |path|), to, meta).Ok?
            && |path| <= StopsAhead(from, to, meta) <= 1 + |WaypointsOf(meta)|
            && forall i, j | 0 <= i < j <= |path| :: Newer(At(from, path, j), At(from, path, i))
    decreases StopsAhead(from, to, meta)
  {
    hide Newer, CheckUpgradePath;
    RequiredIsShort(WaypointsOf(meta), from, to);
    var path := Walk(from, to, meta);
    if path != [] {
      var next := Judge(from, to, meta).suggestedVersion;
      SuggestionAdvances(from, to, meta);
      WalkTerminatesClimbing(next, to, meta);
      var rest := Walk(next, to, meta);
      assert path == [next] + rest;
      assert forall i | 0 < i <= |path| :: At(from, path, i) == At(next, rest, i - 1);
      forall j | 1 < j <= |path|
        ensures Newer(At(from, path, j), from)
      {
        assert Newer(At(next, rest, j - 1), At(next, rest, 0));
        NewerIsStrictOrder(At(from, path, j), next, from);
      }
    }
  }

  lemma {:induction false} RequiredIsShort(ws: seq<string>, low: string, high: string)
    ensures |Required(ws, low, high)| <= |ws|
  {
    hide Newer;
    if ws != [] {
      RequiredIsShort(ws[1..], low, high);
    }
  }

  /** The floor forces the walk past the target exactly when the floor itself is newer than the target. */
  predicate FloorBeyondTarget(from: string, to: string, meta: UpgradeMeta) {
    from != "" && to != "" && Newer(to, from) && FloorApplies(from, meta) && Newer(meta.minFromVersion.value, to)
  }

  ghost predicate NeverPasses(path: seq<string>, to: string) {
    forall k | 0 <= k < |path| :: !Newer(path[k], to)
  }

  lemma NeverPassesCons(next: string, rest: seq<string>, to: string)
    ensures NeverPasses([next] + rest, to) <==> !Newer(next, to) && NeverPasses(rest, to)
  {
    hide Newer;
    var path := [next] + rest;
    assert path[0] == next;
    assert forall k | 0 <= k < |rest| :: rest[k] == path[k + 1];
  }

  lemma {:induction false} WalkStaysBelowTarget(from: string, to: string, meta: UpgradeMeta)
    ensures NeverPasses(Walk(from, to, meta), to) <==> !FloorBeyondTarget(from, to, meta)
    decreases StopsAhead(from, to, meta)
  {
    hide Newer, CheckUpgradePath;
    if Judge(from, to, meta).Ok? {
      FloorBlocksUpgrade(from, to, meta);
    } else {
      var next := Judge(from, to, meta).suggestedVersion;
      RefusalMeans(from, to, meta);
      SuggestionAdvances(from, to, meta);
      WalkStaysBelowTarget(next, to, meta);
      var rest := Walk(next, to, meta);
      assert Walk(from, to, meta) == [next] + rest;
      NewerIsStrictOrder(to, next, to);
      if Known(meta.minFromVersion) {
        NewerIsStrictOrder(meta.minFromVersion.value, next, from);
        NewerIsStrictOrder(next, from, next);
      }
      NeverPassesCons(next, rest, to);
    }
  }

  lemma FloorBlocksUpgrade(from: string, to: string, meta: UpgradeMeta)
    ensures FloorBeyondTarget(from, to, meta) ==> Judge(from, to, meta).Refused?
  {
    hide Newer;
  }

  // ---------------------------------------------------------------------------
  // Every required waypoint is visited
  // ---------------------------------------------------------------------------

  /** Where the waypoint phase begins: the floor when it lifts the start, else the start. */
  function Base(from: string, meta: UpgradeMeta): string {
    if FloorApplies(from, meta) then meta.minFromVersion.value else from
  }

  ghost predicate Visited(w: string, path: seq<string>) {
    exists k | 0 <= k < |path| :: Compare(path[k], w) == 0
  }

  ghost predicate VisitsRequired(low: string, to: string, meta: UpgradeMeta, path: seq<string>) {
    forall w | w in WaypointsOf(meta) && Between(w, low, to) :: Visited(w, path)
  }

  /** The first-listed waypoint that ranks equal to `v`. */
  function FirstEqual(ws: seq<string>, v: string): Option<string> {
    if ws == [] then None
    else if Compare(ws[0], v) == 0 then Some(ws[0])
    else FirstEqual(ws[1..], v)
  }

  /**
   * The empty string is an acceptable waypoint (it ranks as release 0) but not an acceptable suggestion. When it
   * is the first-listed waypoint of its rank and that rank is required, the guard falls silent at it.
   */
  predicate SilencedByEmptyWaypoint(low: string, to: string, meta: UpgradeMeta) {
    Between("", low, to) && FirstEqual(WaypointsOf(meta), "") == Some("")
  }

  /** Equal rank is interchangeable on either side of the order. */
  lemma EqualRank(a: string, b: string, c: string)
    requires Compare(a, b) == 0
    ensures Newer(a, c) <==> Newer(b, c)
    ensures Newer(c, a) <==> Newer(c, b)
    ensures Compare(c, a) == 0 <==> Compare(c, b) == 0
    ensures Compare(a, c) == 0 <==> Compare(b, c) == 0
    ensures Compare(b, a) == 0
  {
    hide Compare;
    CompareAntisymmetric(a, b);
    CompareAntisymmetric(b, c);
    CompareAntisymmetric(a, c);
    NewerIsStrictOrder(a, b, c);
    NewerIsStrictOrder(b, a, c);
    NewerIsStrictOrder(c, a, b);
    NewerIsStrictOrder(c, b, a);
  }

  lemma {:induction false} FirstEqualOfRequired(ws: seq<string>, v: string, low: string, high: string)
    requires Between(v, low, high)
    ensures FirstEqual(Required(ws, low, high), v) == FirstEqual(ws, v)
  {
    hide Compare, Newer;
    if ws != [] {
      FirstEqualOfRequired(ws[1..], v, low, high);
      if Compare(ws[0], v) == 0 {
        EqualRank(ws[0], v, low);
        EqualRank(ws[0], v, high);
      }
      assert ([ws[0]] + Required(ws[1..], low, high))[1..] == Required(ws[1..], low, high);
    }
  }

  lemma {:induction false} FirstEqualIs(xs: seq<string>, v: string, k: nat)
    requires k < |xs| && Compare(xs[k], v) == 0
    requires forall j | 0 <= j < k :: Compare(xs[j], v) != 0
    ensures FirstEqual(xs, v) == Some(xs[k])
  {
    hide Compare;
    if k > 0 {
      FirstEqualIs(xs[1..], v, k - 1);
    }
  }

  lemma {:induction false} FirstEqualMember(xs: seq<string>, v: string)
    ensures var r := FirstEqual(xs, v); r.Some? ==> r.value in xs && Compare(r.value, v) == 0
    ensures v in xs ==> FirstEqual(xs, v).Some?
  {
    hide Compare;
    if xs != [] {
      FirstEqualMember(xs[1..], v);
      CompareReflexive(v);
      assert xs == [xs[0]] + xs[1..];
    }
  }

  /** The next stop of a required rank is the first-listed waypoint of that rank. */
  lemma NextStopIsFirstListed(ws: seq<string>, v: string, low: string, high: string)
    requires Required(ws, low, high) != []
    requires Compare(StableSort(Required(ws, low, high))[0], v) == 0
    ensures FirstEqual(ws, v) == Some(StableSort(Required(ws, low, high))[0])
  {
    hide Compare;
    var req := Required(ws, low, high);
    var next := NextStop(ws, low, high);
    var k := SortHead(req);
    forall j | 0 <= j < k
      ensures Compare(req[j], v) != 0
    {
      CompareAntisymmetric(req[k], req[j]);
      EqualRank(next, v, req[j]);
    }
    FirstEqualIs(req, v, k);
    EqualRank(next, v, low);
    EqualRank(next, v, high);
    FirstEqualOfRequired(ws, v, low, high);
  }

  /** The waypoint phase: the floor is behind, and both ends are known versions. */
  lemma {:induction false} WaypointPhase(from: string, to: string, meta: UpgradeMeta)
    requires from != "" && to != "" && !FloorApplies(from, meta)
    ensures VisitsRequired(from, to, meta, Walk(from, to, meta)) <==> !SilencedByEmptyWaypoint(from, to, meta)
    decreases StopsAhead(from, to, meta)
  {
    hide Compare, Newer;
    var ws := WaypointsOf(meta);
    var req := Required(ws, from, to);
    RequiredMembers(ws, from, to);
    FirstEqualMember(ws, "");
    if !Newer(to, from) || req == [] {
      NothingRequired(ws, from, to);
    } else {
      var next := NextStop(ws, from, to);
      if next == "" {
        CompareReflexive("");
        NextStopIsFirstListed(ws, "", from, to);
        assert !Visited("", []);
      } else {
        var path := Walk(from, to, meta);
        SuggestionAdvances(from, to, meta);
        assert path == [next] + Walk(next, to, meta);
        FloorStaysBehind(from, next, meta);
        WaypointPhase(next, to, meta);
        SilenceCarriesOver(from, next, to, meta);
        VisitCarriesOver(from, next, to, meta, Walk(next, to, meta));
      }
    }
  }

  lemma NothingRequired(ws: seq<string>, low: string, high: string)
    requires !Newer(high, low) || Required(ws, low, high) == []
    ensures forall w | w in ws :: !Between(w, low, high)
    ensures FirstEqual(ws, "") == Some("") ==> !Between("", low, high)
  {
    hide Compare, Newer;
    RequiredMembers(ws, low, high);
    FirstEqualMember(ws, "");
    forall w | w in ws
      ensures !Between(w, low, high)
    {
      NewerIsStrictOrder(high, w, low);
      assert w in Required(ws, low, high) <==> Between(w, low, high);
    }
  }

  lemma FloorStaysBehind(from: string, next: string, meta: UpgradeMeta)
    requires !FloorApplies(from, meta) && Newer(next, from)
    ensures !FloorApplies(next, meta)
  {
    hide Newer;
    if Known(meta.minFromVersion) {
      NewerIsStrictOrder(meta.minFromVersion.value, next, from);
    }
  }

  lemma SilenceCarriesOver(from: string, next: string, to: string, meta: UpgradeMeta)
    requires Required(WaypointsOf(meta), from, to) != []
    requires next == StableSort(Required(WaypointsOf(meta), from, to))[0] && next != ""
    ensures SilencedByEmptyWaypoint(from, to, meta) <==> SilencedByEmptyWaypoint(next, to, meta)
  {
    hide Compare;
    var ws := WaypointsOf(meta);
    var n := NextStop(ws, from, to);
    FirstEqualMember(ws, "");
    CompareAntisymmetric("", next);
    NewerIsStrictOrder("", next, from);
    if Compare(next, "") == 0 {
      NextStopIsFirstListed(ws, "", from, to);
    }
  }

  lemma VisitCarriesOver(from: string, next: string, to: string, meta: UpgradeMeta, rest: seq<string>)
    requires Newer(next, from)
    requires forall w | w in WaypointsOf(meta) && Between(w, from, to) :: !Newer(next, w)
    ensures VisitsRequired(from, to, meta, [next] + rest) <==> VisitsRequired(next, to, meta, rest)
  {
    hide Compare;
    var path := [next] + rest;
    forall w | w in WaypointsOf(meta) && Between(w, next, to)
      ensures Between(w, from, to)
      ensures Visited(w, path) <==> Visited(w, rest)
    {
      NewerIsStrictOrder(w, next, from);
      CompareAntisymmetric(w, next);
      assert Compare(path[0], w) != 0;
      assert forall k | 0 <= k < |rest| :: path[k + 1] == rest[k];
    }
    forall w | w in WaypointsOf(meta) && Between(w, from, to) && !Between(w, next, to)
      ensures Visited(w, path)
    {
      CompareAntisymmetric(w, next);
      assert Compare(path[0], w) == 0;
    }
  }

  /**
   * From a known start to a known target the walk stops at a version equal in rank to every waypoint strictly between
   * max(start, floor) and the target, unless an empty waypoint silences the guard -- and then it misses one.
   */
  lemma WalkVisitsEveryRequiredWaypoint(from: string, to: string, meta: UpgradeMeta)
    requires from != "" && to != ""
    ensures VisitsRequired(Base(from, meta), to, meta, Walk(from, to, meta))
            <==> !SilencedByEmptyWaypoint(Base(from, meta), to, meta)
  {
    hide Compare, Newer;
    if !FloorApplies(from, meta) {
      WaypointPhase(from, to, meta);
    } else {
      var floor := meta.minFromVersion.value;
      if !Newer(to, from) {
        NewerIsStrictOrder(to, floor, from);
        NothingRequired(WaypointsOf(meta), floor, to);
      } else {
        NewerIsStrictOrder(floor, from, floor);
        WaypointPhase(floor, to, meta);
        var rest := Walk(floor, to, meta);
        assert Walk(from, to, meta) == [floor] + rest;
        forall w | Between(w, floor, to)
          ensures Visited(w, [floor] + rest) <==> Visited(w, rest)
        {
          BehindIsNotVisited(floor, w, rest);
        }
      }
    }
  }

  lemma BehindIsNotVisited(first: string, w: string, rest: seq<string>)
    requires Newer(w, first)
    ensures Visited(w, [first] + rest) <==> Visited(w, rest)
  {
    hide Compare;
    CompareAntisymmetric(w, first);
    var path := [first] + rest;
    assert forall k | 0 <= k < |rest| :: path[k + 1] == rest[k];
  }

  // ---------------------------------------------------------------------------
  // Every verdict
  // ---------------------------------------------------------------------------

  lemma {:induction false} FirstEqualAt(ws: seq<string>, v: string) returns (k: nat)
    requires FirstEqual(ws, v).Some?
    ensures k < |ws| && ws[k] == FirstEqual(ws, v).value && Compare(ws[k], v) == 0
    ensures forall j | 0 <= j < k :: Compare(ws[j], v) != 0
  {
    hide Compare;
    k := 0;
    if Compare(ws[0], v) != 0 {
      k := FirstEqualAt(ws[1..], v);
      assert forall j | 0 < j <= k :: ws[j] == ws[1..][j - 1];
      k := k + 1;
    }
  }

  /** Waypoint `k` lies strictly between, no waypoint between is lower, and none of its rank is listed before it. */
  ghost predicate IsStop(ws: seq<string>, low: string, high: string, k: int) {
    && 0 <= k < |ws| && Between(ws[k], low, high)
    && forall j | 0 <= j < |ws| && Between(ws[j], low, high) ::
         !Newer(ws[k], ws[j]) && (j < k ==> Compare(ws[j], ws[k]) != 0)
  }

  lemma StopIsUnique(ws: seq<string>, low: string, high: string, j: int, k: int)
    requires IsStop(ws, low, high, j) && IsStop(ws, low, high, k)
    ensures j == k
  {
    hide Compare;
    CompareAntisymmetric(ws[j], ws[k]);
  }

  lemma SortHeadIsStop(ws: seq<string>, low: string, high: string) returns (k: nat)
    requires Required(ws, low, high) != []
    ensures IsStop(ws, low, high, k) && ws[k] == StableSort(Required(ws, low, high))[0]
  {
    hide Compare, StableSort;
    var next := NextStop(ws, low, high);
    CompareReflexive(next);
    NextStopIsFirstListed(ws, next, low, high);
    k := FirstEqualAt(ws, next);
  }

  /** An upgrade between two known versions of a package with metadata. */
  predicate Guarded(from: Option<string>, to: Option<string>, meta: Option<UpgradeMeta>) {
    meta.Some? && from.Some? && from.value != "" && to.Some? && to.value != "" && Newer(to.value, from.value)
  }

  predicate BelowFloor(from: string, meta: UpgradeMeta, floor: string) {
    floor != "" && meta.minFromVersion == Some(floor) && Newer(floor, from)
  }

  /** The floor is demanded exactly when a guarded upgrade starts below it. */
  lemma FloorDemandedExactly(from: Option<string>, to: Option<string>, meta: Option<UpgradeMeta>, v: string)
    ensures CheckUpgradePath(from, to, meta) == Refused(MinFromVersion, v) <==>
            Guarded(from, to, meta) && BelowFloor(from.value, meta.value, v)
  {
    hide Newer, StableSort, Required;
  }

  /** A waypoint is demanded exactly when a guarded upgrade, not below the floor, has it as its stop. */
  lemma WaypointDemandedExactly(from: Option<string>, to: Option<string>, meta: Option<UpgradeMeta>, v: string)
    ensures CheckUpgradePath(from, to, meta) == Refused(WaypointRequired, v) <==>
            && Guarded(from, to, meta) && (forall floor :: !BelowFloor(from.value, meta.value, floor))
            && v != "" && meta.value.waypoints.Some?
            && exists k ::
                 IsStop(meta.value.waypoints.value, from.value, to.value, k) && meta.value.waypoints.value[k] == v
  {
    hide Newer, StableSort, Required, IsStop;
    if Guarded(from, to, meta) {
      var ws := WaypointsOf(meta.value);
      assert FloorApplies(from.value, meta.value) <==> exists floor :: BelowFloor(from.value, meta.value, floor) by {
        if FloorApplies(from.value, meta.value) {
          assert BelowFloor(from.value, meta.value, meta.value.minFromVersion.value);
        }
      }
      if Required(ws, from.value, to.value) != [] {
        var head := SortHeadIsStop(ws, from.value, to.value);
        var stops := StableSort(Required(ws, from.value, to.value));
        assert |stops| > 0;
        NothingListed(from.value, to.value);
        assert meta.value.waypoints == Some(ws);
        forall k | IsStop(ws, from.value, to.value, k)
          ensures k == head
        {
          StopIsUnique(ws, from.value, to.value, k, head);
        }
      } else {
        NoStop(ws, from.value, to.value);
      }
    }
  }

  lemma NothingListed(low: string, high: string)
    ensures Required([], low, high) == []
  {}

  lemma NoStop(ws: seq<string>, low: string, high: string)
    requires Required(ws, low, high) == []
    ensures forall k :: !IsStop(ws, low, high, k)
  {
    hide Newer;
    RequiredMembers(ws, low, high);
    assert forall k | 0 <= k < |ws| :: ws[k] in ws;
  }

  /** A concrete metadata block whose empty waypoint lets a skip through. */
  lemma EmptyWaypointLetsASkipThrough()
    ensures var meta := UpgradeMeta(None, Some(["", "0.5"]));
            && Judge("0-a", "1", meta) == Ok
            && Between("0.5", "0-a", "1")
            && SilencedByEmptyWaypoint("0-a", "1", meta)
  {
    ExampleRanks();
    hide Compare;
    var ws := ["", "0.5"];
    assert ws[1..] == ["0.5"];
    assert Required(["0.5"], "0-a", "1") == ["0.5"] + [];
    assert Required(ws, "0-a", "1") == ["", "0.5"];
  }

  /** A concrete floor above the target: the suggestion, and with it the walk, is newer than the target. */
  lemma FloorSendsPastTheTarget()
    ensures var meta := UpgradeMeta(Some("1"), None);
            && Judge("0-a", "0.5", meta) == Refused(MinFromVersion, "1")
            && Newer("1", "0.5")
            && !NeverPasses(Walk("0-a", "0.5", meta), "0.5")
  {
    ExampleRanks();
    hide Compare;
    WalkStaysBelowTarget("0-a", "0.5", UpgradeMeta(Some("1"), None));
  }

  /** A core written as one or two digits between dots. */
  lemma SmallCore(x: char, y: char)
    requires IsDigit(x) && IsDigit(y)
    ensures Split([x], '.') == [[x]] && Split([x, '.', y], '.') == [[x], [y]]
  {
    SplitWithoutSeparator([x], '.');
    SplitWithoutSeparator([y], '.');
    SplitAtSeparator([x], '.', [y]);
    assert [x] + ['.'] + [y] == [x, '.', y];
  }

  lemma ExampleParses()
    ensures Parse("") == Parsed([0], "") && Parse("1") == Parsed([1], "")
    ensures Parse("0-a") == Parsed([0], "a") && Parse("0.5") == Parsed([0, 5], "")
  {
    hide ParseIntOrZero, Split, Parse, Trim;
    DigitParses('0');
    DigitParses('1');
    DigitParses('5');
    ParseOfEmpty();
    ParsePlain("0", "a");
    ParsePlain("1", "");
    ParsePlain("0.5", "");
    SmallCore('0', '5');
    SmallCore('1', '5');
    assert "0" + "-" + "a" == "0-a";
    assert ParseNumbers(["0"]) == [0];
    assert ParseNumbers(["1"]) == [1];
    assert ParseNumbers(["0", "5"]) == [0, 5];
  }

  lemma ParseOfEmpty()
    ensures Parse("") == Parsed([0], "")
  {
    hide ParseIntOrZero;
    EmptyParses();
    TrimOfBlank("");
    assert ParseNumbers([""]) == [0];
  }

  lemma DigitParses(c: char)
    requires IsDigit(c)
    ensures ParseIntOrZero([c]) == c as int - '0' as int
  {
    hide TrimLeft;
    assert TrimLeft([c]) == [c] by { TrimLeftOfPadded("", [c]); assert "" + [c] == [c]; }
    assert DigitPrefix([c]) == [c];
    assert [c][..0] == "";
    assert NumberOf([c]) == c as int - '0' as int;
  }

  lemma EmptyParses()
    ensures ParseIntOrZero("") == 0
  {
    assert TrimLeft("") == "" && DigitPrefix("") == "";
  }

  lemma ExampleRanks()
    ensures Compare("", "0-a") == 1 && Compare("1", "") == 1 && Compare("", "") == 0
    ensures Compare("0.5", "0-a") == 5 && Compare("1", "0.5") == 1 && Compare("1", "0-a") == 1
    ensures Compare("", "0.5") == -5
  {
    hide Parse;
    ExampleParses();
  }
}
