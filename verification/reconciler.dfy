/**
 The reconciler (`deploy_config`): for each manifest entry, in order, refresh
 the installed state, and install the entry's version when it differs from the
 installed one. The first failed install ends the whole deployment.
 */
module Reconciler {
  import opened Records
  import opened Inventory
  import opened Installer

  /** What the remote side answers while one manifest entry is processed: the
      inventory refresh, and the install should one be attempted. */
  datatype EntryWorld<W> = EntryWorld(inventory: InventoryReply, install: W)

  /** What processing one manifest entry did: its effects, whether it
      attempted an install, the session token held after the refresh (the one
      any install uploads with), and the failure of that install, which ends
      the deployment. */
  datatype Visit = Visit(effects: seq<Effect>, attempted: bool, token: Option<string>, stop: Option<Failure>)

  /** The visits of a deployment, one per processed entry in manifest order,
      and how it ended. The explicit removal of the temporary directory
      follows only a run that ends in `Success`. */
  datatype Run = Run(visits: seq<Visit>, outcome: Outcome)

  /** The install step the loop calls: plugin key, version, session token and
      the remote answers give the install's effects and outcome. `Deploy`
      uses `Installer.Install`. */
  type Procedure<!W> = (string, string, Option<string>, W) -> InstallRun

  /** An install step that uploads at most once and never reads the plugin
      inventory, as `Installer.Install` does. */
  ghost predicate UploadsAtMostOnce<W(!new)>(install: Procedure<W>)
  {
    forall key, version, token, w ::
      Count(install(key, version, token, w).effects, IsUpload) <= 1
      && Count(install(key, version, token, w).effects, IsFetchInventory) == 0
  }

  /** The failure an install outcome carries, if any. */
  function StopOf(outcome: Outcome): (stop: Option<Failure>)
    ensures stop.Some? <==> outcome.Abort?
    ensures stop.Some? ==> stop.value == outcome.failure
  {
    if outcome.Abort? then Some(outcome.failure) else None
  }

  /** The remote effects of a sequence of visits, in order. */
  function Effects(visits: seq<Visit>): seq<Effect>
  {
    if |visits| == 0 then [] else visits[0].effects + Effects(visits[1..])
  }

  /** The installed state the entry at `j` is compared with: rebuilt from the
      inventory reply of that very refresh, whatever came before. */
  function StateSeen<W>(world: seq<EntryWorld<W>>, j: int): map<string, string>
    requires 0 <= j < |world|
  {
    InstalledState(world[j].inventory)
  }

  /** The session token held after the refresh for entry `j` when the run was
      resumed at `lo` with `initial`: the header of the latest reply that
      arrived in `lo..j`, else `initial`. */
  function TokenSeen<W>(world: seq<EntryWorld<W>>, lo: int, j: int, initial: Option<string>): Option<string>
    requires 0 <= lo && j < |world|
    decreases j - lo
  {
    if j < lo then initial
    else if world[j].inventory.Replied? then world[j].inventory.upmToken
    else TokenSeen(world, lo, j - 1, initial)
  }

  /** One pass of the loop body: refresh the installed state, compare, and
      call the install step on a difference, with the token just refreshed. */
  function VisitEntry<W>(entry: TargetEntry, w: EntryWorld<W>, token: Option<string>, install: Procedure<W>): (v: Visit)
    ensures v.token == TokenAfter(w.inventory, token)
    ensures v.attempted <==> NeedsInstall(entry, InstalledState(w.inventory))
    ensures |v.effects| > 0 && v.effects[0] == FetchInventory
    ensures !v.attempted ==> v.effects == [FetchInventory] && v.stop.None?
    ensures v.attempted ==> v.effects[1..] == install(entry.key, entry.version, v.token, w.install).effects
    ensures v.attempted ==> v.stop == StopOf(install(entry.key, entry.version, v.token, w.install).outcome)
  {
    var snapshot := UpdateAddonData(w.inventory, token);
    if NeedsInstall(entry, snapshot.state) then
      var run := install(entry.key, entry.version, snapshot.token, w.install);
      Visit([FetchInventory] + run.effects, true, snapshot.token, StopOf(run.outcome))
    else
      Visit([FetchInventory], false, snapshot.token, None)
  }

  /** One visit refreshes the inventory once, and uploads only if it attempted
      an install, at most once. */
  lemma VisitCounts<W(!new)>(entry: TargetEntry, w: EntryWorld<W>, token: Option<string>, install: Procedure<W>)
    requires UploadsAtMostOnce(install)
    ensures Count(VisitEntry(entry, w, token, install).effects, IsFetchInventory) == 1
    ensures Count(VisitEntry(entry, w, token, install).effects, IsUpload)
              <= if VisitEntry(entry, w, token, install).attempted then 1 else 0
  {
    var v := VisitEntry(entry, w, token, install);
    assert v.effects == [FetchInventory] + v.effects[1..];
    CountAppend([FetchInventory], v.effects[1..], IsUpload);
    CountAppend([FetchInventory], v.effects[1..], IsFetchInventory);
    if v.attempted {
      var run := install(entry.key, entry.version, v.token, w.install);
      assert Count(run.effects, IsUpload) <= 1 && Count(run.effects, IsFetchInventory) == 0;
    }
  }

  /** Processes the entries from `i` on, holding `token`. The world gives one
      `EntryWorld` per manifest entry. Visit `j` of the result is the one of
      entry `i + j`. */
  function DeployFrom<W>(manifest: seq<TargetEntry>, world: seq<EntryWorld<W>>, install: Procedure<W>, i: nat, token: Option<string>): (r: Run)
    requires |world| == |manifest| && i <= |manifest|
    ensures |r.visits| <= |manifest| - i
    ensures r.outcome == Success ==> |r.visits| == |manifest| - i
    ensures r.outcome.Abort? ==> |r.visits| > 0
    decreases |manifest| - i
  {
    if i == |manifest| then Run([], Success)
    else
      var v := VisitEntry(manifest[i], world[i], token, install);
      if v.stop.Some? then Run([v], Abort(v.stop.value))
      else
        var rest := DeployFrom(manifest, world, install, i + 1, v.token);
        Run([v] + rest.visits, rest.outcome)
  }

  /** The visit for entry `i + j` attempts an install exactly when that entry's
      desired version differs from the one in the state refreshed for it. */
  lemma {:induction false} AttemptedWhenNeeded<W>(manifest: seq<TargetEntry>, world: seq<EntryWorld<W>>, install: Procedure<W>,
                                               i: nat, token: Option<string>, j: nat)
    requires |world| == |manifest| && i <= |manifest|
    requires j < |DeployFrom(manifest, world, install, i, token).visits|
    ensures DeployFrom(manifest, world, install, i, token).visits[j].attempted
            <==> NeedsInstall(manifest[i + j], StateSeen(world, i + j))
    decreases j
  {
    var v := VisitEntry(manifest[i], world[i], token, install);
    if j > 0 {
      var rest := DeployFrom(manifest, world, install, i + 1, v.token);
      AttemptedWhenNeeded(manifest, world, install, i + 1, v.token, j - 1);
      assert DeployFrom(manifest, world, install, i, token).visits[j] == rest.visits[j - 1];
    }
  }

  /** Every visit but the last one went through: the deployment stops at
      the first failed install. */
  lemma {:induction false} EarlierVisitsWentThrough<W>(manifest: seq<TargetEntry>, world: seq<EntryWorld<W>>, install: Procedure<W>,
                                                    i: nat, token: Option<string>, j: nat)
    requires |world| == |manifest| && i <= |manifest|
    requires j + 1 < |DeployFrom(manifest, world, install, i, token).visits|
    ensures DeployFrom(manifest, world, install, i, token).visits[j].stop.None?
    decreases j
  {
    var v := VisitEntry(manifest[i], world[i], token, install);
    if j > 0 {
      var rest := DeployFrom(manifest, world, install, i + 1, v.token);
      EarlierVisitsWentThrough(manifest, world, install, i + 1, v.token, j - 1);
      assert DeployFrom(manifest, world, install, i, token).visits[j] == rest.visits[j - 1];
    }
  }

  /** A completed deployment met no failure in any visit. */
  lemma {:induction false} CompletedWithoutFailure<W>(manifest: seq<TargetEntry>, world: seq<EntryWorld<W>>, install: Procedure<W>,
                                                   i: nat, token: Option<string>, j: nat)
    requires |world| == |manifest| && i <= |manifest|
    requires DeployFrom(manifest, world, install, i, token).outcome == Success
    requires j < |DeployFrom(manifest, world, install, i, token).visits|
    ensures DeployFrom(manifest, world, install, i, token).visits[j].stop.None?
    decreases j
  {
    var v := VisitEntry(manifest[i], world[i], token, install);
    var rest := DeployFrom(manifest, world, install, i + 1, v.token);
    if j > 0 {
      CompletedWithoutFailure(manifest, world, install, i + 1, v.token, j - 1);
      assert DeployFrom(manifest, world, install, i, token).visits[j] == rest.visits[j - 1];
    }
  }

  /** An aborted deployment ends with the visit whose attempted install failed,
      and with that install's failure. */
  lemma {:induction false} AbortedAtFailure<W>(manifest: seq<TargetEntry>, world: seq<EntryWorld<W>>, install: Procedure<W>,
                                            i: nat, token: Option<string>)
    requires |world| == |manifest| && i <= |manifest|
    requires DeployFrom(manifest, world, install, i, token).outcome.Abort?
    ensures var r := DeployFrom(manifest, world, install, i, token);
              r.visits[|r.visits| - 1].stop == Some(r.outcome.failure) && r.visits[|r.visits| - 1].attempted
    decreases |manifest| - i
  {
    var v := VisitEntry(manifest[i], world[i], token, install);
    if v.stop.None? {
      var rest := DeployFrom(manifest, world, install, i + 1, v.token);
      AbortedAtFailure(manifest, world, install, i + 1, v.token);
      var r := Run([v] + rest.visits, rest.outcome);
      assert DeployFrom(manifest, world, install, i, token) == r;
      assert r.visits[|r.visits| - 1] == rest.visits[|rest.visits| - 1];
    }
  }

  /** The visit for entry `k` is one pass of the loop body over that entry,
      its refresh and its install step, holding the token the refreshes
      before it left. */
  lemma {:induction false} VisitIs<W>(manifest: seq<TargetEntry>, world: seq<EntryWorld<W>>, install: Procedure<W>,
                                      i: nat, token: Option<string>, k: nat)
    requires |world| == |manifest| && i <= |manifest| && i <= k
    requires k - i < |DeployFrom(manifest, world, install, i, token).visits|
    ensures k < |manifest|
    ensures DeployFrom(manifest, world, install, i, token).visits[k - i]
            == VisitEntry(manifest[k], world[k], TokenSeen(world, i, k - 1, token), install)
    decreases k - i, 1
  {
    if k == i {
      FirstVisitIs(manifest, world, install, i, token);
    } else {
      LaterVisitIs(manifest, world, install, i, token, k);
    }
  }

  /** The first visit of a run is the loop body over its first entry. */
  lemma FirstVisitIs<W>(manifest: seq<TargetEntry>, world: seq<EntryWorld<W>>, install: Procedure<W>,
                        i: nat, token: Option<string>)
    requires |world| == |manifest| && i < |manifest|
    ensures |DeployFrom(manifest, world, install, i, token).visits| > 0
    ensures DeployFrom(manifest, world, install, i, token).visits[0]
            == VisitEntry(manifest[i], world[i], TokenSeen(world, i, i - 1, token), install)
  {
    assert TokenSeen(world, i, i - 1, token) == token;
  }

  /** The induction step of `VisitIs`: a later visit is the one of the run
      resumed after the first refresh. */
  lemma {:induction false} LaterVisitIs<W>(manifest: seq<TargetEntry>, world: seq<EntryWorld<W>>, install: Procedure<W>,
                                           i: nat, token: Option<string>, k: nat)
    requires |world| == |manifest| && i <= |manifest| && i < k
    requires k - i < |DeployFrom(manifest, world, install, i, token).visits|
    ensures k < |manifest|
    ensures DeployFrom(manifest, world, install, i, token).visits[k - i]
            == VisitEntry(manifest[k], world[k], TokenSeen(world, i, k - 1, token), install)
    decreases k - i, 0
  {
    var held := TokenAfter(world[i].inventory, token);
    LaterVisit(manifest, world, install, i, token, k);
    VisitIs(manifest, world, install, i + 1, held, k);
    TokenSeenSplit(world, i, k - 1, held, token);
  }

  /** Every visit holds, and any install it attempts uploads with, the token
      of the latest inventory reply that arrived up to its entry; a refresh
      that never got a reply keeps the token held before it. */
  lemma VisitTokens<W>(manifest: seq<TargetEntry>, world: seq<EntryWorld<W>>, install: Procedure<W>,
                       i: nat, token: Option<string>, k: nat)
    requires |world| == |manifest| && i <= |manifest| && i <= k
    requires k - i < |DeployFrom(manifest, world, install, i, token).visits|
    ensures DeployFrom(manifest, world, install, i, token).visits[k - i].token == TokenSeen(world, i, k, token)
  {
    VisitIs(manifest, world, install, i, token, k);
  }

  /** The visit for entry `k > i` in the run from `i` is the one in the run
      resumed at `i + 1` with the token the first refresh left. */
  lemma LaterVisit<W>(manifest: seq<TargetEntry>, world: seq<EntryWorld<W>>, install: Procedure<W>,
                      i: nat, token: Option<string>, k: nat)
    requires |world| == |manifest| && i <= |manifest| && i < k
    requires k - i < |DeployFrom(manifest, world, install, i, token).visits|
    ensures i < |manifest|
    ensures k - (i + 1) < |DeployFrom(manifest, world, install, i + 1, TokenAfter(world[i].inventory, token)).visits|
    ensures DeployFrom(manifest, world, install, i, token).visits[k - i]
            == DeployFrom(manifest, world, install, i + 1, TokenAfter(world[i].inventory, token)).visits[k - (i + 1)]
  {
  }

  /** A run uploads at most once per visit that attempted an install, and a
      run that completes refreshed the installed state once per entry. */
  lemma {:induction false} RunEffects<W(!new)>(manifest: seq<TargetEntry>, world: seq<EntryWorld<W>>, install: Procedure<W>,
                                      i: nat, token: Option<string>)
    requires |world| == |manifest| && i <= |manifest|
    requires UploadsAtMostOnce(install)
    ensures Count(Effects(DeployFrom(manifest, world, install, i, token).visits), IsUpload)
              <= Attempted(DeployFrom(manifest, world, install, i, token).visits)
    ensures DeployFrom(manifest, world, install, i, token).outcome == Success ==>
              Count(Effects(DeployFrom(manifest, world, install, i, token).visits), IsFetchInventory) == |manifest| - i
    decreases |manifest| - i
  {
    if i < |manifest| {
      var v := VisitEntry(manifest[i], world[i], token, install);
      VisitCounts(manifest[i], world[i], token, install);
      if v.stop.None? {
        var rest := DeployFrom(manifest, world, install, i + 1, v.token);
        RunEffects(manifest, world, install, i + 1, v.token);
        assert ([v] + rest.visits)[1..] == rest.visits;
        CountAppend(v.effects, Effects(rest.visits), IsUpload);
        CountAppend(v.effects, Effects(rest.visits), IsFetchInventory);
      } else {
        assert Effects([v]) == v.effects + [];
        assert v.effects + [] == v.effects;
      }
    }
  }

  /** The number of visits that attempted an install. */
  function Attempted(visits: seq<Visit>): nat
  {
    if |visits| == 0 then 0 else (if visits[0].attempted then 1 else 0) + Attempted(visits[1..])
  }

  /** What every visit of a deployment does and holds: it attempts an install
      exactly when its entry differs from the state refreshed for it, it holds
      the token of the latest reply up to its entry, and an aborted deployment
      ends with the failed install. */
  lemma DeployVisits<W>(manifest: seq<TargetEntry>, world: seq<EntryWorld<W>>, install: Procedure<W>)
    requires |world| == |manifest|
    ensures var r := DeployFrom(manifest, world, install, 0, None);
              forall j :: 0 <= j < |r.visits| ==> (r.visits[j].attempted <==> NeedsInstall(manifest[j], StateSeen(world, j)))
    ensures var r := DeployFrom(manifest, world, install, 0, None);
              forall j :: 0 <= j < |r.visits| ==> r.visits[j].token == TokenSeen(world, 0, j, None)
    ensures var r := DeployFrom(manifest, world, install, 0, None);
              r.outcome.Abort? ==> r.visits[|r.visits| - 1].attempted && r.visits[|r.visits| - 1].stop == Some(r.outcome.failure)
  {
    var r := DeployFrom(manifest, world, install, 0, None);
    forall j | 0 <= j < |r.visits|
      ensures r.visits[j].attempted <==> NeedsInstall(manifest[j], StateSeen(world, j))
      ensures r.visits[j].token == TokenSeen(world, 0, j, None)
    {
      AttemptedWhenNeeded(manifest, world, install, 0, None, j);
      VisitTokens(manifest, world, install, 0, None, j);
    }
    if r.outcome.Abort? {
      AbortedAtFailure(manifest, world, install, 0, None);
    }
  }

  /** `deploy_config`: all entries from the first on, with no token yet. It
      visits the entries in order until the first failed install; each visit
      attempts an install exactly when its entry differs from the state
      refreshed for it, with the token of the latest reply so far. */
  function Deploy(manifest: seq<TargetEntry>, world: seq<EntryWorld<InstallWorld>>): (r: Run)
    requires |world| == |manifest|
    ensures |r.visits| <= |manifest|
    ensures r.outcome == Success ==> |r.visits| == |manifest|
    ensures forall j :: 0 <= j < |r.visits| ==> (r.visits[j].attempted <==> NeedsInstall(manifest[j], StateSeen(world, j)))
    ensures forall j :: 0 <= j < |r.visits| ==> r.visits[j].token == TokenSeen(world, 0, j, None)
    ensures r.outcome.Abort? ==>
              |r.visits| > 0 && r.visits[|r.visits| - 1].attempted && r.visits[|r.visits| - 1].stop == Some(r.outcome.failure)
  {
    DeployVisits(manifest, world, Install);
    DeployFrom(manifest, world, Install, 0, None)
  }

  /** `Installer.Install` is an install step the effect bounds apply to. */
  lemma InstallUploadsAtMostOnce()
    ensures UploadsAtMostOnce(Install)
  {
    forall key, version, token, w
      ensures Count(Install(key, version, token, w).effects, IsUpload) <= 1
      ensures Count(Install(key, version, token, w).effects, IsFetchInventory) == 0
    {
    }
  }

  /** A deployment uploads at most once per install it attempted, and a
      deployment that completes refreshed the installed state once per entry. */
  lemma DeployEffects(manifest: seq<TargetEntry>, world: seq<EntryWorld<InstallWorld>>)
    requires |world| == |manifest|
    ensures Count(Effects(Deploy(manifest, world).visits), IsUpload) <= Attempted(Deploy(manifest, world).visits)
    ensures Deploy(manifest, world).outcome == Success ==>
              Count(Effects(Deploy(manifest, world).visits), IsFetchInventory) == |manifest|
  {
    InstallUploadsAtMostOnce();
    RunEffects(manifest, world, Install, 0, None);
  }

  /** Every upload of a deployment belongs to an entry whose desired version
      differs from the state refreshed for it, and carries the token of the
      latest inventory reply up to that entry (none before the first reply). */
  lemma DeployUploads(manifest: seq<TargetEntry>, world: seq<EntryWorld<InstallWorld>>, j: nat, e: nat)
    requires |world| == |manifest| && j < |Deploy(manifest, world).visits|
    requires e < |Deploy(manifest, world).visits[j].effects| && Deploy(manifest, world).visits[j].effects[e].Upload?
    ensures NeedsInstall(manifest[j], StateSeen(world, j))
    ensures Deploy(manifest, world).visits[j].effects[e].token == TokenSeen(world, 0, j, None)
  {
    VisitIs(manifest, world, Install, 0, None, j);
    VisitTokens(manifest, world, Install, 0, None, j);
    var v := Deploy(manifest, world).visits[j];
    assert v.attempted;
    var run := Install(manifest[j].key, manifest[j].version, v.token, world[j].install);
    assert v.effects[e] == run.effects[e - 1];
  }

  /** Resuming after the refresh for entry `i` with the token it left agrees
      with looking back from `i`. */
  lemma {:induction false} TokenSeenSplit<W>(world: seq<EntryWorld<W>>, i: nat, j: int, held: Option<string>, before: Option<string>)
    requires i <= j < |world|
    requires held == TokenAfter(world[i].inventory, before)
    ensures TokenSeen(world, i + 1, j, held) == TokenSeen(world, i, j, before)
    decreases j - i
  {
    if j == i {
      assert TokenSeen(world, i, i, before) == held;
    } else if !world[j].inventory.Replied? {
      TokenSeenSplit(world, i, j - 1, held, before);
    }
  }

  lemma {:induction false} NoneAttempted(visits: seq<Visit>)
    requires forall j :: 0 <= j < |visits| ==> !visits[j].attempted
    ensures Attempted(visits) == 0
  {
    if |visits| > 0 {
      NoneAttempted(visits[1..]);
    }
  }

  /** When every entry already matches the installed state refreshed for it,
      the deployment completes without attempting any install or uploading
      anything. */
  lemma NoInstallWhenSatisfied<W(!new)>(manifest: seq<TargetEntry>, world: seq<EntryWorld<W>>, install: Procedure<W>)
    requires |world| == |manifest| && UploadsAtMostOnce(install)
    requires forall j :: 0 <= j < |manifest| ==> !NeedsInstall(manifest[j], StateSeen(world, j))
    ensures DeployFrom(manifest, world, install, 0, None).outcome == Success
    ensures Attempted(DeployFrom(manifest, world, install, 0, None).visits) == 0
    ensures Count(Effects(DeployFrom(manifest, world, install, 0, None).visits), IsUpload) == 0
  {
    var r := DeployFrom(manifest, world, install, 0, None);
    RunEffects(manifest, world, install, 0, None);
    if r.outcome.Abort? {
      AbortedAtFailure(manifest, world, install, 0, None);
      AttemptedWhenNeeded(manifest, world, install, 0, None, |r.visits| - 1);
    }
    forall j | 0 <= j < |r.visits|
      ensures !r.visits[j].attempted
    {
      AttemptedWhenNeeded(manifest, world, install, 0, None, j);
    }
    NoneAttempted(r.visits);
  }

  /** An entry whose key is not installed and whose desired version is the
      empty string is taken as satisfied: no install is attempted for it. */
  lemma EmptyVersionOfMissingKeyIsSatisfied<W>(manifest: seq<TargetEntry>, world: seq<EntryWorld<W>>, install: Procedure<W>, j: nat)
    requires |world| == |manifest| && j < |DeployFrom(manifest, world, install, 0, None).visits|
    requires manifest[j].version == "" && manifest[j].key !in StateSeen(world, j)
    ensures !DeployFrom(manifest, world, install, 0, None).visits[j].attempted
  {
    AttemptedWhenNeeded(manifest, world, install, 0, None, j);
  }
}
