/** The backup and restore coverage verdicts (`packages/shared/src/contracts.ts`). */
module Coverage {
  import opened Text
  import opened Values
  import opened Participations

  datatype BackupState = Uncovered | AsIs | Quiesced | Partial

  datatype RestoreState = Undeclared | CopyBack | Restorable | Incomplete

  /** The verdict and the two counts it rests on; the echoed inputs are not modelled. */
  datatype BackupCoverage = BackupCoverage(state: BackupState, targeted: nat, recognised: nat)

  datatype RestoreCoverage = RestoreCoverage(state: RestoreState, targeted: nat, recognised: nat)

  datatype RestoreDeclaration = RestoreDeclaration(id: string, hook: Option<Hook>)

  predicate PreHookNames(p: Participation, service: string) {
    p.preHook.Some? && p.preHook.value.service == service
  }

  predicate NamedByPreHook(parts: seq<Participation>, service: string) {
    exists i | 0 <= i < |parts| :: PreHookNames(parts[i], service)
  }

  /** The participation has a restore declaration with a hook. */
  predicate HasRestoreHook(p: Participation, declarations: seq<RestoreDeclaration>) {
    exists j | 0 <= j < |declarations| :: declarations[j].hook.Some? && declarations[j].id == p.id
  }

  predicate ReloadedByHook(parts: seq<Participation>, declarations: seq<RestoreDeclaration>, service: string) {
    exists i | 0 <= i < |parts| :: PreHookNames(parts[i], service) && HasRestoreHook(parts[i], declarations)
  }

  /** The database services a backup quiesces; the empty name is never one. */
  function BackupTargets(parts: seq<Participation>, databases: seq<string>): set<string> {
    set s | s in databases && s != "" && NamedByPreHook(parts, s)
  }

  function RestoreTargets(parts: seq<Participation>, declarations: seq<RestoreDeclaration>, databases: seq<string>)
    : set<string>
  {
    set s | s in databases && ReloadedByHook(parts, declarations, s)
  }

  function BackupVerdict(accepts: bool, parts: seq<Participation>, databases: seq<string>): BackupCoverage {
    var targeted := |BackupTargets(parts, databases)|;
    var state := if !accepts then Uncovered
                 else if |databases| == 0 then (if |parts| > 0 then Quiesced else AsIs)
                 else if targeted == |databases| then Quiesced
                 else Partial;
    BackupCoverage(state, targeted, |databases|)
  }

  function RestoreVerdict(accepts: bool, parts: seq<Participation>, declarations: seq<RestoreDeclaration>,
                          databases: seq<string>): RestoreCoverage
  {
    var targeted := |RestoreTargets(parts, declarations, databases)|;
    var anyHook := exists j | 0 <= j < |declarations| :: declarations[j].hook.Some?;
    var state := if !accepts then Undeclared
                 else if |databases| == 0 then (if anyHook then Restorable else CopyBack)
                 else if targeted == |databases| then Restorable
                 else Incomplete;
    RestoreCoverage(state, targeted, |databases|)
  }

  method JudgeBackupCoverage(accepts: bool, parts: seq<Participation>, databases: seq<string>)
    returns (r: BackupCoverage)
    ensures r == BackupVerdict(accepts, parts, databases)
  {
    var recognisedSet := set s | s in databases;
    var targetedSet: set<string> := {};
    for i := 0 to |parts|
      invariant targetedSet == BackupTargets(parts[..i], databases)
    {
      var p := parts[i];
      NamedByPrefix(parts, i);
      if p.preHook.Some? && p.preHook.value.service != "" && p.preHook.value.service in recognisedSet {
        targetedSet := targetedSet + {p.preHook.value.service};
      }
    }
    assert parts[..|parts|] == parts;
    var recognised, targeted := |databases|, |targetedSet|;
    var state;
    if !accepts { state := Uncovered; }
    else if recognised == 0 { state := if |parts| > 0 then Quiesced else AsIs; }
    else { state := if targeted == recognised then Quiesced else Partial; }
    r := BackupCoverage(state, targeted, recognised);
  }

  lemma NamedByPrefix(parts: seq<Participation>, i: nat)
    requires i < |parts|
    ensures forall s :: NamedByPreHook(parts[..i + 1], s) <==>
              NamedByPreHook(parts[..i], s) || PreHookNames(parts[i], s)
  {
    hide PreHookNames;
    forall s
      ensures NamedByPreHook(parts[..i + 1], s) <==> NamedByPreHook(parts[..i], s) || PreHookNames(parts[i], s)
    {
      assert parts[..i + 1][i] == parts[i];
      assert forall k | 0 <= k < i :: parts[..i + 1][k] == parts[..i][k];
    }
  }

  method JudgeRestoreCoverage(accepts: bool, parts: seq<Participation>, declarations: seq<RestoreDeclaration>,
                              databases: seq<string>)
    returns (r: RestoreCoverage)
    ensures r == RestoreVerdict(accepts, parts, declarations, databases)
  {
    var recognisedSet := set s | s in databases;
    var hookIds := set j | 0 <= j < |declarations| && declarations[j].hook.Some? :: declarations[j].id;
    var targetedSet: set<string> := {};
    for i := 0 to |parts|
      invariant targetedSet == RestoreTargets(parts[..i], declarations, databases)
    {
      var p := parts[i];
      ReloadedByPrefix(parts, declarations, i);
      assert p.id in hookIds <==> HasRestoreHook(p, declarations);
      if p.preHook.Some? && p.preHook.value.service in recognisedSet && p.id in hookIds {
        targetedSet := targetedSet + {p.preHook.value.service};
      }
    }
    assert parts[..|parts|] == parts;
    HookIdsCount(declarations, hookIds);
    var recognised, targeted := |databases|, |targetedSet|;
    var state;
    if !accepts { state := Undeclared; }
    else if recognised == 0 { state := if |hookIds| > 0 then Restorable else CopyBack; }
    else { state := if targeted == recognised then Restorable else Incomplete; }
    r := RestoreCoverage(state, targeted, recognised);
  }

  lemma HookIdsCount(declarations: seq<RestoreDeclaration>, hookIds: set<string>)
    requires hookIds == set j | 0 <= j < |declarations| && declarations[j].hook.Some? :: declarations[j].id
    ensures |hookIds| > 0 <==> exists j | 0 <= j < |declarations| :: declarations[j].hook.Some?
  {
    if j :| 0 <= j < |declarations| && declarations[j].hook.Some? {
      assert declarations[j].id in hookIds;
    }
    if |hookIds| > 0 {
      var id :| id in hookIds;
    }
  }

  lemma ReloadedByPrefix(parts: seq<Participation>, declarations: seq<RestoreDeclaration>, i: nat)
    requires i < |parts|
    ensures forall s :: ReloadedByHook(parts[..i + 1], declarations, s) <==>
              ReloadedByHook(parts[..i], declarations, s)
              || (PreHookNames(parts[i], s) && HasRestoreHook(parts[i], declarations))
  {
    hide PreHookNames, HasRestoreHook;
    forall s
      ensures ReloadedByHook(parts[..i + 1], declarations, s) <==>
              ReloadedByHook(parts[..i], declarations, s)
              || (PreHookNames(parts[i], s) && HasRestoreHook(parts[i], declarations))
    {
      assert parts[..i + 1][i] == parts[i];
      assert forall k | 0 <= k < i :: parts[..i + 1][k] == parts[..i][k];
    }
  }

  // ---------------------------------------------------------------------------
  // Counting
  // ---------------------------------------------------------------------------

  ghost predicate Distinct(xs: seq<string>) {
    forall i, j | 0 <= i < j < |xs| :: xs[i] != xs[j]
  }

  /** A subset of a list's members is as large as the list exactly when it is all of them and none repeats. */
  lemma {:induction false} CountsAllExactly(xs: seq<string>, sub: set<string>)
    requires forall s | s in sub :: s in xs
    ensures |sub| <= |xs|
    ensures |sub| == |xs| <==> Distinct(xs) && forall i | 0 <= i < |xs| :: xs[i] in sub
  {
    if xs != [] {
      var n := |xs| - 1;
      var last := xs[n];
      assert xs == xs[..n] + [last];
      CountsAllExactly(xs[..n], sub - {last});
      if last in sub {
        assert |sub| == |sub - {last}| + 1;
        if Distinct(xs) {
          assert forall i | 0 <= i < n :: xs[i] != last;
        }
        if |sub - {last}| == n {
          assert forall i | 0 <= i < n :: xs[..n][i] in sub - {last};
          assert forall i | 0 <= i < n :: xs[i] == xs[..n][i];
        }
      } else {
        assert sub - {last} == sub;
      }
    } else {
      assert sub == {};
    }
  }

  // ---------------------------------------------------------------------------
  // The verdicts
  // ---------------------------------------------------------------------------

  /** Some participation stops the service in its pre-hook. */
  ghost predicate Stops(parts: seq<Participation>, service: string) {
    exists i, hook | 0 <= i < |parts| :: parts[i].preHook == Some(hook) && hook.service == service
  }

  /** Some participation stops the service and has a restore declaration with a hook. */
  ghost predicate Reloads(parts: seq<Participation>, declarations: seq<RestoreDeclaration>, service: string) {
    exists i, j, hook | 0 <= i < |parts| && 0 <= j < |declarations| ::
      && parts[i].preHook == Some(hook) && hook.service == service
      && declarations[j].id == parts[i].id && declarations[j].hook.Some?
  }

  lemma TargetsExactly(parts: seq<Participation>, declarations: seq<RestoreDeclaration>, databases: seq<string>,
                       service: string)
    ensures service in BackupTargets(parts, databases) <==>
            service in databases && service != "" && Stops(parts, service)
    ensures service in RestoreTargets(parts, declarations, databases) <==>
            service in databases && Reloads(parts, declarations, service)
  {
    if i :| 0 <= i < |parts| && PreHookNames(parts[i], service) {
      assert parts[i].preHook == Some(parts[i].preHook.value);
    }
    if i :| 0 <= i < |parts| && PreHookNames(parts[i], service) && HasRestoreHook(parts[i], declarations) {
      var j :| 0 <= j < |declarations| && declarations[j].hook.Some? && declarations[j].id == parts[i].id;
      assert parts[i].preHook == Some(parts[i].preHook.value);
    }
    if i, j, hook :| 0 <= i < |parts| && 0 <= j < |declarations| && parts[i].preHook == Some(hook)
                     && hook.service == service && declarations[j].id == parts[i].id && declarations[j].hook.Some? {
      assert PreHookNames(parts[i], service) && HasRestoreHook(parts[i], declarations);
    }
    if i, hook :| 0 <= i < |parts| && parts[i].preHook == Some(hook) && hook.service == service {
      assert PreHookNames(parts[i], service);
    }
  }

  /** The backup verdict in full: each state with its condition. */
  lemma BackupStateExactly(accepts: bool, parts: seq<Participation>, databases: seq<string>)
    ensures var r := BackupVerdict(accepts, parts, databases);
            && r.recognised == |databases|
            && (r.state == Uncovered <==> !accepts)
            && (r.state == AsIs <==> accepts && databases == [] && parts == [])
            && (r.state == Quiesced <==> accepts && (if databases == [] then parts != []
                  else Distinct(databases) && forall s | s in databases :: s != "" && Stops(parts, s)))
  {
    hide NamedByPreHook, Stops, BackupTargets, Distinct;
    QuiescedExactly(parts, databases);
    forall s | s in databases
      ensures s in BackupTargets(parts, databases) <==> s != "" && Stops(parts, s)
      ensures s in BackupTargets(parts, databases) <==> s != "" && NamedByPreHook(parts, s)
    {
      TargetsExactly(parts, [], databases, s);
      BackupTargetIs(parts, databases, s);
    }
  }

  lemma BackupTargetIs(parts: seq<Participation>, databases: seq<string>, s: string)
    ensures s in BackupTargets(parts, databases) <==> s in databases && s != "" && NamedByPreHook(parts, s)
  {
    hide NamedByPreHook;
  }

  /** The restore verdict in full. */
  lemma RestoreStateExactly(accepts: bool, parts: seq<Participation>, declarations: seq<RestoreDeclaration>,
                            databases: seq<string>)
    ensures var r := RestoreVerdict(accepts, parts, declarations, databases);
            && r.recognised == |databases|
            && (r.state == Undeclared <==> !accepts)
            && (r.state == CopyBack <==>
                  accepts && databases == [] && forall j | 0 <= j < |declarations| :: declarations[j].hook == None)
            && (r.state == Restorable <==> accepts && (if databases == [] then
                    exists j | 0 <= j < |declarations| :: declarations[j].hook != None
                  else Distinct(databases) && forall s | s in databases :: Reloads(parts, declarations, s)))
  {
    hide ReloadedByHook, Reloads, RestoreTargets, Distinct;
    RestorableExactly(parts, declarations, databases);
    forall s | s in databases
      ensures s in RestoreTargets(parts, declarations, databases) <==> Reloads(parts, declarations, s)
      ensures s in RestoreTargets(parts, declarations, databases) <==> ReloadedByHook(parts, declarations, s)
    {
      TargetsExactly(parts, declarations, databases, s);
      RestoreTargetIs(parts, declarations, databases, s);
    }
  }

  lemma RestoreTargetIs(parts: seq<Participation>, declarations: seq<RestoreDeclaration>, databases: seq<string>,
                        s: string)
    ensures s in RestoreTargets(parts, declarations, databases) <==>
            s in databases && ReloadedByHook(parts, declarations, s)
  {
    hide ReloadedByHook;
  }

  /** For an accepting app with a recognised database, `quiesced` says exactly this. */
  lemma QuiescedExactly(parts: seq<Participation>, databases: seq<string>)
    ensures databases != [] ==> (BackupVerdict(true, parts, databases).state == Quiesced <==>
            && Distinct(databases)
            && forall s | s in databases :: s != "" && NamedByPreHook(parts, s))
  {
    hide NamedByPreHook, Distinct;
    var targets := BackupTargets(parts, databases);
    CountsAllExactly(databases, targets);
    assert (forall i | 0 <= i < |databases| :: databases[i] in targets) <==>
           (forall s | s in databases :: s in targets);
  }

  lemma RestorableExactly(parts: seq<Participation>, declarations: seq<RestoreDeclaration>, databases: seq<string>)
    ensures databases != [] ==> (RestoreVerdict(true, parts, declarations, databases).state == Restorable <==>
            && Distinct(databases)
            && forall s | s in databases :: ReloadedByHook(parts, declarations, s))
  {
    hide ReloadedByHook, Distinct;
    var targets := RestoreTargets(parts, declarations, databases);
    CountsAllExactly(databases, targets);
    assert (forall i | 0 <= i < |databases| :: databases[i] in targets) <==>
           (forall s | s in databases :: s in targets);
  }

  lemma ReloadedIsNamed(parts: seq<Participation>, declarations: seq<RestoreDeclaration>, s: string)
    requires ReloadedByHook(parts, declarations, s)
    ensures NamedByPreHook(parts, s)
  {}

  /** The empty name is reloaded, and so is every database a backup targets. */
  predicate ReloadsBeyondBackup(parts: seq<Participation>, declarations: seq<RestoreDeclaration>,
                                databases: seq<string>)
  {
    && "" in databases && ReloadedByHook(parts, declarations, "")
    && forall s | s in databases && s != "" && NamedByPreHook(parts, s) :: ReloadedByHook(parts, declarations, s)
  }

  /** Backup targets are at most the databases, and restore targets at most those but for that one family. */
  lemma CountsAreOrdered(accepts: bool, restores: bool, parts: seq<Participation>,
                         declarations: seq<RestoreDeclaration>, databases: seq<string>)
    ensures BackupVerdict(accepts, parts, databases).targeted <= |databases|
    ensures RestoreVerdict(restores, parts, declarations, databases).targeted
            <= BackupVerdict(accepts, parts, databases).targeted
            <==> !ReloadsBeyondBackup(parts, declarations, databases)
  {
    hide NamedByPreHook, ReloadedByHook;
    var backup, restore := BackupTargets(parts, databases), RestoreTargets(parts, declarations, databases);
    CountsAllExactly(databases, backup);
    var named := restore - {""};
    forall s | s in named
      ensures s in backup
    {
      ReloadedIsNamed(parts, declarations, s);
    }
    SubsetCount(named, backup);
    if "" in restore {
      assert restore == named + {""};
      assert forall s :: s in named <==> s in databases && s != "" && ReloadedByHook(parts, declarations, s);
      assert forall s :: s in backup <==> s in databases && s != "" && NamedByPreHook(parts, s);
      if ReloadsBeyondBackup(parts, declarations, databases) {
        assert forall s | s in backup :: s in named;
        assert backup == named;
      } else {
        var s :| s in databases && s != "" && NamedByPreHook(parts, s) && !ReloadedByHook(parts, declarations, s);
        assert s in backup && s !in named;
      }
    } else {
      assert named == restore;
    }
  }

  lemma {:induction false} SubsetCount(a: set<string>, b: set<string>)
    requires a <= b
    ensures |a| <= |b| && (|a| == |b| <==> a == b)
  {
    if a != {} {
      var x :| x in a;
      SubsetCount(a - {x}, b - {x});
      assert a == (a - {x}) + {x} && b == (b - {x}) + {x};
    }
  }

  /** A restorable app whose backup is accepted is quiesced exactly when no database has the empty name. */
  lemma RestorableIsQuiesced(parts: seq<Participation>, declarations: seq<RestoreDeclaration>, databases: seq<string>)
    requires databases != []
    requires RestoreVerdict(true, parts, declarations, databases).state == Restorable
    ensures BackupVerdict(true, parts, databases).state == Quiesced <==> "" !in databases
  {
    hide NamedByPreHook, ReloadedByHook, BackupVerdict, RestoreVerdict;
    QuiescedExactly(parts, databases);
    RestorableExactly(parts, declarations, databases);
    forall s | s in databases
      ensures NamedByPreHook(parts, s)
    {
      ReloadedIsNamed(parts, declarations, s);
    }
  }

  // ---------------------------------------------------------------------------
  // On the participations the platform reads
  // ---------------------------------------------------------------------------

  /** Every caller passes participations read from a backup block, and their hooks never name the empty service. */
  lemma ReadHooksNameServices(v: Value)
    ensures !NamedByPreHook(ReadParticipations(v), "")
  {
    hide ReadParticipations, Trimmed;
    OutputIsNormal(v);
    forall i | 0 <= i < |ReadParticipations(v)|
      ensures !PreHookNames(ReadParticipations(v)[i], "")
    {
      assert WellFormed(ReadParticipations(v)[i]);
    }
  }

  /**
   * With participations read from a backup block the counts are ordered and a restorable app with a recognised
   * database is quiesced, without exception.
   */
  lemma ReadParticipationsCover(v: Value, accepts: bool, restores: bool, declarations: seq<RestoreDeclaration>,
                                databases: seq<string>)
    ensures var parts := ReadParticipations(v);
            && RestoreVerdict(restores, parts, declarations, databases).targeted
               <= BackupVerdict(accepts, parts, databases).targeted <= |databases|
            && (databases != [] && RestoreVerdict(true, parts, declarations, databases).state == Restorable ==>
                  BackupVerdict(true, parts, databases).state == Quiesced)
  {
    hide NamedByPreHook, ReloadedByHook, ReadParticipations, Distinct;
    var parts := ReadParticipations(v);
    ReadHooksNameServices(v);
    var backup, restore := BackupTargets(parts, databases), RestoreTargets(parts, declarations, databases);
    forall s | s in restore
      ensures s in backup
    {
      ReloadedIsNamed(parts, declarations, s);
    }
    SubsetCount(restore, backup);
    CountsAllExactly(databases, backup);
    CountsAllExactly(databases, restore);
  }

  /** A hook and a database without a name, possible only for inputs that were not read from a backup block. */
  lemma NamelessDatabaseDiffers(command: seq<string>)
    ensures var hook := Some(Hook("", command));
            var parts, declarations := [Participation("p", hook, None)], [RestoreDeclaration("p", hook)];
            && RestoreVerdict(true, parts, declarations, [""]) == RestoreCoverage(Restorable, 1, 1)
            && BackupVerdict(true, parts, [""]) == BackupCoverage(Partial, 0, 1)
  {
    var hook := Some(Hook("", command));
    var parts, declarations := [Participation("p", hook, None)], [RestoreDeclaration("p", hook)];
    assert HasRestoreHook(parts[0], declarations) by { assert declarations[0].id == parts[0].id; }
    assert PreHookNames(parts[0], "");
    assert RestoreTargets(parts, declarations, [""]) == {""};
    assert BackupTargets(parts, [""]) == {};
  }
}
