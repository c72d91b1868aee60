/** The cleaner's procedures, run against the abstract store: list the
    project's secrets, and for each secret disable every ENABLED version but
    the latest, then destroy every DISABLED version. In a dry run the store
    is not changed and only the intended actions are reported. An abort
    (`log.Fatalf`, or the usage exit when no project is given) is a `Fail`
    outcome; the report holds the lines printed before it. */
module Cleaner {
  import opened Versions
  import opened SecretStore
  import opened SweepSpec

  /** A listed secret, by its fully qualified name. */
  datatype SecretName = SecretName(name: string)

  /** The parent the secrets of a project are listed under. */
  function ProjectParent(project: string): (r: string)
    ensures |r| == |"projects/"| + |project|
    ensures r[..|"projects/"|] == "projects/"
    ensures r[|"projects/"|..] == project
  {
    "projects/" + project
  }

  /** Collects the names of all secrets of a project, in listing order. */
  method ListSecrets(store: Store, projectName: string) returns (r: Result<seq<SecretName>>)
    ensures !store.CanListSecrets(projectName) ==> r == Err(ListSecretsFailed(projectName))
    ensures store.CanListSecrets(projectName) ==>
      && r.Ok?
      && |r.value| == |store.projects[projectName]|
      && forall i :: 0 <= i < |r.value| ==> r.value[i].name == store.projects[projectName][i]
  {
    var listing := store.ListSecrets(projectName);
    if listing.Err? {
      return Err(listing.error);
    }
    var secrets: seq<SecretName> := [];
    for i := 0 to |listing.value|
      invariant |secrets| == i
      invariant forall j :: 0 <= j < i ==> secrets[j].name == listing.value[j]
    {
      secrets := secrets + [SecretName(listing.value[i])];
    }
    return Ok(secrets);
  }

  /** The scan for the latest version: a running maximum of (seconds, nanos)
      that starts at (0, 0) with an empty name and moves only on a strictly
      later timestamp. */
  method FindLatest(versions: seq<SecretVersion>) returns (latestVerName: string)
    ensures latestVerName == LatestName(versions)
  {
    latestVerName := "";
    var highestTimestamp: int64 := 0;
    var highestTimestampNano: int32 := 0;
    for i := 0 to |versions|
      invariant match LatestIndex(versions[..i])
        case None =>
          highestTimestamp == 0 && highestTimestampNano == 0 && latestVerName == ""
        case Some(k) =>
          && k < i
          && highestTimestamp == versions[k].createTimeSeconds
          && highestTimestampNano == versions[k].createTimeNanos
          && latestVerName == versions[k].name
    {
      var version := versions[i];
      var timestamp := version.createTimeSeconds;
      var timestampNano := version.createTimeNanos;
      assert versions[..i + 1][..i] == versions[..i];
      if timestamp > highestTimestamp {
        highestTimestamp := timestamp;
        highestTimestampNano := timestampNano;
        latestVerName := version.name;
      }
      if timestamp == highestTimestamp && timestampNano > highestTimestampNano {
        highestTimestampNano := timestampNano;
        latestVerName := version.name;
      }
    }
    assert versions[..|versions|] == versions;
    match LatestIndex(versions)
    case None => LatestIndexCharacterised(versions, 0);
    case Some(k) => LatestIndexCharacterised(versions, k);
  }

  /** The line the disable loop prints for a selected version. */
  function DisableKind(dryRun: bool): Kind {
    if dryRun then WouldDisable else DisabledOk
  }

  /** The line the destroy loop prints for a listed version. */
  function DestroyKind(dryRun: bool): Kind {
    if dryRun then WouldDestroy else DestroyedOk
  }

  /** Where the disable loop stands after the first i versions of the
      ENABLED listing: it has reported, and outside a dry run disabled,
      exactly the selection made from those versions. */
  ghost predicate DisableProgress(state0: map<string, State>, versions: seq<SecretVersion>, latest: string, dryRun: bool,
                                  refused: set<string>, i: int, report: seq<Report>, state: map<string, State>)
  {
    && 0 <= i <= |versions|
    && (forall j :: 0 <= j < |versions| ==> versions[j].name in state0 && state0[versions[j].name] == Enabled)
    && var done := DisableNames(versions[..i], latest);
    && report == Reports(DisableKind(dryRun), done)
    && state == (if dryRun then state0 else SetAll(state0, done, Disabled))
    && (!dryRun ==> forall j :: 0 <= j < |done| ==> done[j] !in refused)
  }

  /** Before the first turn nothing is reported and nothing has changed. */
  lemma DisableProgressStart(catalog: map<string, seq<SecretVersion>>, state0: map<string, State>, secret: string,
                             latest: string, dryRun: bool, refused: set<string>)
    requires secret in catalog
    ensures DisableProgress(state0, EnabledListing(catalog, state0, secret), latest, dryRun, refused, 0, [], state0)
  {
    var versions := EnabledListing(catalog, state0, secret);
    assert versions[..0] == [];
    assert Reports(DisableKind(dryRun), []) == [];
    SetAllNothing(state0, Disabled);
  }

  /** The pass's own listing and scan give the selection the sweep
      specification names. */
  lemma DisableSelectionIs(catalog: map<string, seq<SecretVersion>>, state: map<string, State>, secret: string,
                           versions: seq<SecretVersion>, latest: string)
    requires secret in catalog && versions == WithState(catalog[secret], state, Enabled) && latest == LatestName(versions)
    ensures DisableSelection(catalog, state, secret) == DisableNames(versions, latest)
  {
  }

  /** One turn of the disable loop: the kept version is skipped, any other
      is reported, or disabled when the store accepts it. */
  lemma DisableProgressStep(state0: map<string, State>, versions: seq<SecretVersion>, latest: string, dryRun: bool,
                            refused: set<string>, i: int, report: seq<Report>, state: map<string, State>)
    requires DisableProgress(state0, versions, latest, dryRun, refused, i, report, state) && i < |versions|
    ensures var n := versions[i].name;
      && n in state && state[n] != Destroyed
      && (n == latest ==> DisableProgress(state0, versions, latest, dryRun, refused, i + 1, report, state))
      && (n != latest && dryRun ==>
            DisableProgress(state0, versions, latest, dryRun, refused, i + 1, report + [Report(WouldDisable, n)], state))
      && (n != latest && !dryRun && n !in refused ==>
            DisableProgress(state0, versions, latest, dryRun, refused, i + 1,
                            report + [Report(DisabledOk, n)], state[n := Disabled]))
  {
    var n := versions[i].name;
    var done := DisableNames(versions[..i], latest);
    DisableNamesStep(versions, i, latest);
    ReportsSnoc(DisableKind(dryRun), done, n);
    SetAllSnoc(state0, done, n, Disabled);
    if !dryRun {
      SetAllLookup(state0, done, Disabled, n);
    }
  }

  /** The store refuses version i: the loop has disabled exactly the
      selection up to the refused name, which is the first refused one. */
  lemma DisableProgressStop(state0: map<string, State>, versions: seq<SecretVersion>, latest: string,
                            refused: set<string>, i: int, report: seq<Report>, state: map<string, State>)
    requires DisableProgress(state0, versions, latest, false, refused, i, report, state) && i < |versions|
    requires versions[i].name != latest && versions[i].name in refused
    ensures var names := DisableNames(versions, latest);
      var k := Accepted(names, refused);
      && k < |names| && names[k] == versions[i].name
      && state == SetAll(state0, names[..k], Disabled)
      && report == Reports(DisabledOk, names[..k])
      && Forward(state0, state)
  {
    var names := DisableNames(versions, latest);
    var done := DisableNames(versions[..i], latest);
    DisableNamesSplit(versions, i, latest);
    forall j | 0 <= j < |done| ensures names[j] !in refused {
      assert names[j] == names[..|done|][j];
    }
    AcceptedAt(names, refused, |done|);
    DisableForward(state0, versions, latest, done);
  }

  /** The loop has gone through the whole listing. The final state and report
      are given both over `names[..|names|]`, the form of the pass's refusal
      clause with no refusal, and over `names`, the form of its success clause. */
  lemma DisableProgressDone(state0: map<string, State>, versions: seq<SecretVersion>, latest: string, dryRun: bool,
                            refused: set<string>, report: seq<Report>, state: map<string, State>)
    requires DisableProgress(state0, versions, latest, dryRun, refused, |versions|, report, state)
    ensures dryRun ==> state == state0 && report == Reports(WouldDisable, DisableNames(versions, latest))
    ensures !dryRun ==>
      var names := DisableNames(versions, latest);
      && Accepted(names, refused) == |names|
      && state == SetAll(state0, names[..|names|], Disabled)
      && report == Reports(DisabledOk, names[..|names|])
      && state == SetAll(state0, names, Disabled)
      && report == Reports(DisabledOk, names)
      && Forward(state0, state)
  {
    assert versions[..|versions|] == versions;
    var names := DisableNames(versions, latest);
    assert names[..|names|] == names;
    if !dryRun {
      DisableForward(state0, versions, latest, names);
    }
  }

  /** Disabling selected ENABLED versions moves states only forward. */
  lemma DisableForward(state0: map<string, State>, versions: seq<SecretVersion>, latest: string, done: seq<string>)
    requires forall j :: 0 <= j < |versions| ==> versions[j].name in state0 && state0[versions[j].name] == Enabled
    requires forall n :: n in done ==> n in DisableNames(versions, latest)
    ensures Forward(state0, SetAll(state0, done, Disabled))
  {
    forall n | n in done ensures n in state0 && state0[n] == Enabled {
      var v := VersionOfName(versions, n);
      var j :| 0 <= j < |versions| && versions[j] == v;
    }
  }

  /** The disable pass over one secret: list its ENABLED versions, find the
      latest, and disable (or, in a dry run, report) every other one in
      listing order. The store stops at the first version it refuses. */
  method DisableExceptTheLatestVersions(store: Store, secretName: string, dryRun: bool)
    returns (out: Outcome, report: seq<Report>)
    modifies store`state
    ensures (store.state, report, out) == DisablePass(store.catalog, old(store.state), secretName, dryRun, store.Refused())
    ensures Forward(old(store.state), store.state)
    ensures out.Pass? ==> store.CanListVersions(secretName, Enabled)
    ensures out.Fail? ==>
      || (out == Fail(ListVersionsFailed(secretName)) && !store.CanListVersions(secretName, Enabled))
      || (out.error.DisableFailed? && !dryRun && out.error.version in store.disableRefused)
    ensures out.Pass? && !dryRun ==>
      var names := DisableSelection(store.catalog, old(store.state), secretName);
      store.state == SetAll(old(store.state), names, Disabled) && report == Reports(DisabledOk, names)
    ensures !store.CanListVersions(secretName, Enabled) ==>
      out == Fail(ListVersionsFailed(secretName)) && store.state == old(store.state) && report == []
    ensures store.CanListVersions(secretName, Enabled) && dryRun ==>
      && out == Pass
      && store.state == old(store.state)
      && report == Reports(WouldDisable, DisableSelection(store.catalog, old(store.state), secretName))
    ensures store.CanListVersions(secretName, Enabled) && !dryRun ==>
      var names := DisableSelection(store.catalog, old(store.state), secretName);
      var k := Accepted(names, store.disableRefused);
      && store.state == SetAll(old(store.state), names[..k], Disabled)
      && report == Reports(DisabledOk, names[..k])
      && out == (if k == |names| then Pass else Fail(DisableFailed(names[k])))
  {
    var listing := store.ListSecretVersions(secretName, Enabled);
    if listing.Err? {
      return Fail(listing.error), [];
    }
    var versions := listing.value;
    var latestVerName := FindLatest(versions);
    ghost var state0 := store.state;
    DisableProgressStart(store.catalog, state0, secretName, latestVerName, dryRun, store.disableRefused);
    DisableSelectionIs(store.catalog, state0, secretName, versions, latestVerName);
    out, report := Pass, [];
    for i := 0 to |versions|
      invariant DisableProgress(state0, versions, latestVerName, dryRun, store.disableRefused, i, report, store.state)
    {
      var version := versions[i];
      DisableProgressStep(state0, versions, latestVerName, dryRun, store.disableRefused, i, report, store.state);
      if version.name != latestVerName {
        if dryRun {
          report := report + [Report(WouldDisable, version.name)];
        } else {
          var disabled := store.DisableSecretVersion(version.name);
          if disabled.Fail? {
            DisableProgressStop(state0, versions, latestVerName, store.disableRefused, i, report, store.state);
            return disabled, report;
          }
          report := report + [Report(DisabledOk, version.name)];
        }
      }
    }
    DisableProgressDone(state0, versions, latestVerName, dryRun, store.disableRefused, report, store.state);
  }

  /** Where the destroy loop stands after the first i DISABLED versions. */
  ghost predicate DestroyProgress(state0: map<string, State>, disabled: seq<SecretVersion>, dryRun: bool,
                                  refused: set<string>, i: int, report: seq<Report>, state: map<string, State>)
  {
    && 0 <= i <= |disabled|
    && DistinctNames(disabled)
    && (forall j :: 0 <= j < |disabled| ==> disabled[j].name in state0 && state0[disabled[j].name] == Disabled)
    && var done := NamesOf(disabled)[..i];
    && report == Reports(DestroyKind(dryRun), done)
    && state == (if dryRun then state0 else SetAll(state0, done, Destroyed))
    && (!dryRun ==> forall j :: 0 <= j < i ==> disabled[j].name !in refused)
  }

  /** Before the first turn nothing is reported and nothing has changed. */
  lemma DestroyProgressStart(catalog: map<string, seq<SecretVersion>>, state0: map<string, State>, secret: string,
                             dryRun: bool, refused: set<string>)
    requires secret in catalog && DistinctNames(catalog[secret])
    ensures DestroyProgress(state0, WithState(catalog[secret], state0, Disabled), dryRun, refused, 0, [], state0)
  {
    var disabled := WithState(catalog[secret], state0, Disabled);
    WithStateDistinct(catalog[secret], state0, Disabled);
    assert NamesOf(disabled)[..0] == [];
    assert Reports(DestroyKind(dryRun), []) == [];
    SetAllNothing(state0, Destroyed);
  }

  /** One turn of the destroy loop: the version is reported, or destroyed
      when the store accepts it. */
  lemma DestroyProgressStep(state0: map<string, State>, disabled: seq<SecretVersion>, dryRun: bool,
                            refused: set<string>, i: int, report: seq<Report>, state: map<string, State>)
    requires DestroyProgress(state0, disabled, dryRun, refused, i, report, state) && i < |disabled|
    ensures var n := disabled[i].name;
      && n in state && state[n] != Destroyed
      && (dryRun ==>
            DestroyProgress(state0, disabled, dryRun, refused, i + 1, report + [Report(WouldDestroy, n)], state))
      && (!dryRun && n !in refused ==>
            DestroyProgress(state0, disabled, dryRun, refused, i + 1,
                            report + [Report(DestroyedOk, n)], state[n := Destroyed]))
  {
    var n := disabled[i].name;
    var names := NamesOf(disabled);
    var done := names[..i];
    assert names[..i + 1] == done + [n];
    ReportsSnoc(DestroyKind(dryRun), done, n);
    SetAllSnoc(state0, done, n, Destroyed);
    if !dryRun {
      SetAllLookup(state0, done, Destroyed, n);
      assert n !in done;
    }
  }

  /** The store refuses version i: the loop has destroyed exactly the
      versions listed before it, and it is the first refused one. */
  lemma DestroyProgressStop(state0: map<string, State>, disabled: seq<SecretVersion>,
                            refused: set<string>, i: int, report: seq<Report>, state: map<string, State>)
    requires DestroyProgress(state0, disabled, false, refused, i, report, state) && i < |disabled|
    requires disabled[i].name in refused
    ensures var names := NamesOf(disabled);
      var k := Accepted(names, refused);
      && k == i && names[k] == disabled[i].name
      && state == SetAll(state0, names[..k], Destroyed)
      && report == Reports(DestroyedOk, names[..k])
      && Forward(state0, state)
  {
    AcceptedAt(NamesOf(disabled), refused, i);
    DestroyForward(state0, disabled, NamesOf(disabled)[..i]);
  }

  /** The loop has gone through the whole DISABLED listing. The final state
      and report are given both over `names[..|names|]`, the form of the pass's
      refusal clause with no refusal, and over `names`, the form of its success
      clause. */
  lemma DestroyProgressDone(state0: map<string, State>, disabled: seq<SecretVersion>, dryRun: bool,
                            refused: set<string>, report: seq<Report>, state: map<string, State>)
    requires DestroyProgress(state0, disabled, dryRun, refused, |disabled|, report, state)
    ensures dryRun ==> state == state0 && report == Reports(WouldDestroy, NamesOf(disabled))
    ensures !dryRun ==>
      var names := NamesOf(disabled);
      && Accepted(names, refused) == |names|
      && state == SetAll(state0, names[..|names|], Destroyed)
      && report == Reports(DestroyedOk, names[..|names|])
      && state == SetAll(state0, names, Destroyed)
      && report == Reports(DestroyedOk, names)
      && Forward(state0, state)
  {
    var names := NamesOf(disabled);
    assert names[..|names|] == names;
    if !dryRun {
      DestroyForward(state0, disabled, names);
    }
  }

  /** Destroying listed DISABLED versions moves states only forward. */
  lemma DestroyForward(state0: map<string, State>, disabled: seq<SecretVersion>, done: seq<string>)
    requires forall j :: 0 <= j < |disabled| ==> disabled[j].name in state0 && state0[disabled[j].name] == Disabled
    requires forall n :: n in done ==> n in NamesOf(disabled)
    ensures Forward(state0, SetAll(state0, done, Destroyed))
  {
    forall n | n in done ensures n in state0 {
      var v := VersionOfName(disabled, n);
      var j :| 0 <= j < |disabled| && disabled[j] == v;
    }
  }

  /** The destroy pass over one secret: list its DISABLED versions (after the
      disable pass) and destroy (or, in a dry run, report) every one of them;
      there is no retention count. The store stops at the first version it
      refuses. */
  method DestroyDisabledVersions(store: Store, secretName: string, dryRun: bool)
    returns (out: Outcome, report: seq<Report>)
    requires secretName in store.catalog ==> DistinctNames(store.catalog[secretName])
    modifies store`state
    ensures (store.state, report, out) == DestroyPass(store.catalog, old(store.state), secretName, dryRun, store.Refused())
    ensures Forward(old(store.state), store.state)
    ensures out.Pass? ==> store.CanListVersions(secretName, Disabled)
    ensures out.Fail? ==>
      || (out == Fail(ListVersionsFailed(secretName)) && !store.CanListVersions(secretName, Disabled))
      || (out.error.DestroyFailed? && !dryRun && out.error.version in store.destroyRefused)
    ensures out.Pass? && !dryRun ==>
      var names := DestroySelection(store.catalog, old(store.state), secretName);
      store.state == SetAll(old(store.state), names, Destroyed) && report == Reports(DestroyedOk, names)
    ensures !store.CanListVersions(secretName, Disabled) ==>
      out == Fail(ListVersionsFailed(secretName)) && store.state == old(store.state) && report == []
    ensures store.CanListVersions(secretName, Disabled) && dryRun ==>
      && out == Pass
      && store.state == old(store.state)
      && report == Reports(WouldDestroy, DestroySelection(store.catalog, old(store.state), secretName))
    ensures store.CanListVersions(secretName, Disabled) && !dryRun ==>
      var names := DestroySelection(store.catalog, old(store.state), secretName);
      var k := Accepted(names, store.destroyRefused);
      && store.state == SetAll(old(store.state), names[..k], Destroyed)
      && report == Reports(DestroyedOk, names[..k])
      && out == (if k == |names| then Pass else Fail(DestroyFailed(names[k])))
  {
    var listing := store.ListSecretVersions(secretName, Disabled);
    if listing.Err? {
      return Fail(listing.error), [];
    }
    var disabled := listing.value;
    ghost var state0 := store.state;
    DestroyProgressStart(store.catalog, state0, secretName, dryRun, store.destroyRefused);
    out, report := Pass, [];
    for i := 0 to |disabled|
      invariant DestroyProgress(state0, disabled, dryRun, store.destroyRefused, i, report, store.state)
    {
      var resp := disabled[i];
      DestroyProgressStep(state0, disabled, dryRun, store.destroyRefused, i, report, store.state);
      if dryRun {
        report := report + [Report(WouldDestroy, resp.name)];
      } else {
        var destroyed := store.DestroySecretVersion(resp.name);
        if destroyed.Fail? {
          DestroyProgressStop(state0, disabled, store.destroyRefused, i, report, store.state);
          return destroyed, report;
        }
        report := report + [Report(DestroyedOk, resp.name)];
      }
    }
    DestroyProgressDone(state0, disabled, dryRun, store.destroyRefused, report, store.state);
  }

  /** The whole run: refuse an empty project before touching the store, list
      the project's secrets, then sweep them one at a time in listing order,
      the disable pass of each finishing before its destroy pass. */
  method Run(store: Store, project: string, dryRun: bool) returns (out: Outcome, report: seq<Report>)
    requires store.Valid()
    modifies store`state
    ensures store.Valid() && Forward(old(store.state), store.state)
    ensures project != "" && store.CanListSecrets(ProjectParent(project)) ==>
      (store.state, report, out)
        == SweepAllUntil(store.catalog, old(store.state), store.projects[ProjectParent(project)], dryRun, store.Refused())
    ensures dryRun ==> store.state == old(store.state)
    ensures project == "" ==> out == Fail(MissingProject) && store.state == old(store.state) && report == []
    ensures project != "" && !store.CanListSecrets(ProjectParent(project)) ==>
      out == Fail(ListSecretsFailed(ProjectParent(project))) && store.state == old(store.state) && report == []
    ensures out.Pass? ==> project != "" && store.CanListSecrets(ProjectParent(project))
    ensures out.Fail? && project != "" && store.CanListSecrets(ProjectParent(project)) ==>
      var secrets := store.projects[ProjectParent(project)];
      || (&& out.error.ListVersionsFailed? && out.error.secret in secrets
          && (!store.CanListVersions(out.error.secret, Enabled) || !store.CanListVersions(out.error.secret, Disabled)))
      || (out.error.DisableFailed? && !dryRun && out.error.version in store.disableRefused)
      || (out.error.DestroyFailed? && !dryRun && out.error.version in store.destroyRefused)
    ensures out.Pass? ==>
      var secrets := store.projects[ProjectParent(project)];
      && (store.state, report) == SweepAll(store.catalog, old(store.state), secrets, dryRun)
      && (!dryRun ==> forall s :: s in secrets ==> Swept(store.catalog, store.state, s))
  {
    if project == "" {
      return Fail(MissingProject), [];
    }
    var listed := ListSecrets(store, ProjectParent(project));
    if listed.Err? {
      return Fail(listed.error), [];
    }
    var secrets := listed.value;
    ghost var names := store.projects[ProjectParent(project)];
    ghost var state0 := store.state;
    out, report := Pass, [];
    for i := 0 to |secrets|
      invariant RunProgress(store.catalog, state0, names, dryRun, store.Refused(), i, report, store.state)
    {
      var secret := secrets[i];
      assert secret.name == names[i];
      ghost var before := store.state;
      var disableOut, disableReport := DisableExceptTheLatestVersions(store, secret.name, dryRun);
      if disableOut.Fail? {
        RunProgressStop(store.catalog, state0, names, dryRun, store.Refused(), i, report, before,
                        store.state, disableReport, disableOut);
        RunFinish(store, state0, names, dryRun, store.state, report + disableReport, disableOut);
        return disableOut, report + disableReport;
      }
      ghost var middle := store.state;
      var destroyOut, destroyReport := DestroyDisabledVersions(store, secret.name, dryRun);
      if destroyOut.Fail? {
        RunProgressStop(store.catalog, state0, names, dryRun, store.Refused(), i, report, before,
                        store.state, disableReport + destroyReport, destroyOut);
        RunFinish(store, state0, names, dryRun, store.state, report + (disableReport + destroyReport), destroyOut);
        return destroyOut, report + (disableReport + destroyReport);
      }
      RunProgressStep(store.catalog, state0, names, dryRun, store.Refused(), i, report, before,
                      middle, disableReport, store.state, destroyReport);
      report := report + (disableReport + destroyReport);
    }
    assert names[..|names|] == names;
    RunFinish(store, state0, names, dryRun, store.state, report, out);
  }

  /** Where the run stands after sweeping the first i secrets, none of which
      failed. */
  ghost predicate RunProgress(catalog: map<string, seq<SecretVersion>>, state0: map<string, State>, secrets: seq<string>,
                              dryRun: bool, refusals: Refusals, i: int, report: seq<Report>, state: map<string, State>)
  {
    && 0 <= i <= |secrets|
    && (forall j :: 0 <= j < i ==> secrets[j] in catalog)
    && (state, report, Pass) == SweepAllUntil(catalog, state0, secrets[..i], dryRun, refusals)
  }

  /** Sweeping one more secret, as the two passes do it, extends the sweep
      of the secrets before it. */
  lemma RunProgressStep(catalog: map<string, seq<SecretVersion>>, state0: map<string, State>, secrets: seq<string>,
                        dryRun: bool, refusals: Refusals, i: int, report: seq<Report>, before: map<string, State>,
                        middle: map<string, State>, disableReport: seq<Report>,
                        after: map<string, State>, destroyReport: seq<Report>)
    requires RunProgress(catalog, state0, secrets, dryRun, refusals, i, report, before) && i < |secrets|
    requires secrets[i] in catalog
    requires (middle, disableReport, Pass) == DisablePass(catalog, before, secrets[i], dryRun, refusals)
    requires (after, destroyReport, Pass) == DestroyPass(catalog, middle, secrets[i], dryRun, refusals)
    ensures RunProgress(catalog, state0, secrets, dryRun, refusals, i + 1, report + (disableReport + destroyReport), after)
  {
    assert secrets[..i + 1][..i] == secrets[..i];
  }

  /** The sweep of secret i fails: the run ends with the result the sweep of
      the whole project as the store answers it has. */
  lemma RunProgressStop(catalog: map<string, seq<SecretVersion>>, state0: map<string, State>, secrets: seq<string>,
                        dryRun: bool, refusals: Refusals, i: int, report: seq<Report>, before: map<string, State>,
                        after: map<string, State>, stepReport: seq<Report>, out: Outcome)
    requires RunProgress(catalog, state0, secrets, dryRun, refusals, i, report, before) && i < |secrets|
    requires (after, stepReport, out) == SweepSecretUntil(catalog, before, secrets[i], dryRun, refusals) && out.Fail?
    ensures (after, report + stepReport, out) == SweepAllUntil(catalog, state0, secrets, dryRun, refusals)
  {
    assert secrets[..i + 1][..i] == secrets[..i];
    SweepAllUntilStops(catalog, state0, secrets, dryRun, refusals, i + 1);
  }

  /** What the run promises follows from its result being the sweep of the
      project as the store answers it: well-formedness is kept, a pass is
      the sweep `SweepAll` defines and leaves every secret in its steady
      state, and a failure names a refused request. */
  lemma RunFinish(store: Store, state0: map<string, State>, secrets: seq<string>, dryRun: bool,
                  state: map<string, State>, report: seq<Report>, out: Outcome)
    requires WellFormed(store.catalog, state0)
    requires (state, report, out) == SweepAllUntil(store.catalog, state0, secrets, dryRun, store.Refused())
    requires out.Pass? ==> forall j :: 0 <= j < |secrets| ==> secrets[j] in store.catalog
    ensures WellFormed(store.catalog, state) && Forward(state0, state)
    ensures dryRun ==> state == state0
    ensures out.Pass? ==>
      && (state, report) == SweepAll(store.catalog, state0, secrets, dryRun)
      && (!dryRun ==> forall s :: s in secrets ==> Swept(store.catalog, state, s))
    ensures out.Fail? ==>
      || (&& out.error.ListVersionsFailed? && out.error.secret in secrets
          && (!store.CanListVersions(out.error.secret, Enabled) || !store.CanListVersions(out.error.secret, Disabled)))
      || (out.error.DisableFailed? && !dryRun && out.error.version in store.disableRefused)
      || (out.error.DestroyFailed? && !dryRun && out.error.version in store.destroyRefused)
  {
    WellFormedSameKeys(store.catalog, state0, state);
    SweepAllUntilFailure(store.catalog, state0, secrets, dryRun, store.Refused());
    if out.Pass? {
      SweepAllUntilPass(store.catalog, state0, secrets, dryRun, store.Refused());
      if !dryRun {
        assert forall s :: s in secrets ==> s in store.catalog;
        SweepAllSwept(store.catalog, state0, secrets);
      }
    }
  }
}
