/** What a sweep of one secret, and of a whole project, does to the store and
    what it reports, as functions of the store's contents; and what follows
    from that: after a live sweep at most one version of the secret is
    ENABLED and none is DISABLED, a second sweep does nothing, and a dry run
    names exactly the versions a live run would destroy. */
module SweepSpec {
  import opened Versions
  import opened SecretStore

  /** The cleaner's per-version output lines. */
  datatype Kind = WouldDisable | DisabledOk | WouldDestroy | DestroyedOk

  datatype Report = Report(kind: Kind, version: string)

  /** One line of the given kind per name, in order. */
  function Reports(kind: Kind, names: seq<string>): seq<Report> {
    seq(|names|, i requires 0 <= i < |names| => Report(kind, names[i]))
  }

  /** One more name adds one line at the end. */
  lemma ReportsSnoc(kind: Kind, names: seq<string>, name: string)
    ensures Reports(kind, names + [name]) == Reports(kind, names) + [Report(kind, name)]
  {
  }

  /** The ENABLED listing the disable pass takes of a secret. */
  function EnabledListing(catalog: map<string, seq<SecretVersion>>, state: map<string, State>, secret: string): seq<SecretVersion>
    requires secret in catalog
  {
    WithState(catalog[secret], state, Enabled)
  }

  /** The name of the version the disable pass keeps. */
  function KeptName(catalog: map<string, seq<SecretVersion>>, state: map<string, State>, secret: string): string
    requires secret in catalog
  {
    LatestName(EnabledListing(catalog, state, secret))
  }

  /** The versions the disable pass disables (or reports in a dry run). */
  function DisableSelection(catalog: map<string, seq<SecretVersion>>, state: map<string, State>, secret: string)
    : (r: seq<string>)
    ensures forall n :: n in r ==> n in state && state[n] == Enabled
    ensures secret in catalog ==> forall n :: n in r ==> n != KeptName(catalog, state, secret)
  {
    if secret in catalog then
      DisableNames(EnabledListing(catalog, state, secret), KeptName(catalog, state, secret))
    else []
  }

  /** The versions the destroy pass destroys (or reports in a dry run): the
      whole DISABLED listing, with no retention count. */
  function DestroySelection(catalog: map<string, seq<SecretVersion>>, state: map<string, State>, secret: string)
    : (r: seq<string>)
    ensures forall n :: n in r ==> n in state && state[n] == Disabled
  {
    if secret in catalog then
      NamesOf(WithState(catalog[secret], state, Disabled))
    else []
  }

  /** One secret: the disable pass, then the destroy pass over a DISABLED
      listing taken after the disable pass. A dry run changes nothing. */
  function SweepSecret(catalog: map<string, seq<SecretVersion>>, state: map<string, State>, secret: string, dryRun: bool)
    : (r: (map<string, State>, seq<Report>))
    ensures Forward(state, r.0)
  {
    var disable := DisableSelection(catalog, state, secret);
    if dryRun then
      (state, Reports(WouldDisable, disable) + Reports(WouldDestroy, DestroySelection(catalog, state, secret)))
    else
      var afterDisable := SetAll(state, disable, Disabled);
      var destroy := DestroySelection(catalog, afterDisable, secret);
      SetAllForward(state, disable, Disabled);
      SetAllForward(afterDisable, destroy, Destroyed);
      ForwardTransitive(state, afterDisable, SetAll(afterDisable, destroy, Destroyed));
      (SetAll(afterDisable, destroy, Destroyed), Reports(DisabledOk, disable) + Reports(DestroyedOk, destroy))
  }

  /** The secrets one after another, in listing order. */
  function SweepAll(catalog: map<string, seq<SecretVersion>>, state: map<string, State>, secrets: seq<string>, dryRun: bool)
    : (r: (map<string, State>, seq<Report>))
    ensures Forward(state, r.0)
    decreases |secrets|
  {
    if secrets == [] then (state, [])
    else
      var before := SweepAll(catalog, state, secrets[..|secrets| - 1], dryRun);
      var last := SweepSecret(catalog, before.0, secrets[|secrets| - 1], dryRun);
      ForwardTransitive(state, before.0, last.0);
      (last.0, before.1 + last.1)
  }

  /** The disable pass over one secret as the store answers it: a refused
      listing changes nothing and fails; a dry run reports the selection; a
      live run disables the selection in order up to the first refused name
      and fails on that one. */
  function DisablePass(catalog: map<string, seq<SecretVersion>>, state: map<string, State>, secret: string,
                       dryRun: bool, refusals: Refusals): (r: (map<string, State>, seq<Report>, Outcome))
    ensures Forward(state, r.0)
    ensures dryRun ==> r.0 == state
    ensures r.2.Fail? ==>
      || (r.2 == Fail(ListVersionsFailed(secret)) && !Listable(catalog, refusals.versions, secret, Enabled))
      || (&& r.2.error.DisableFailed? && !dryRun && r.2.error.version in refusals.disable
          && r.2.error.version in DisableSelection(catalog, state, secret))
  {
    var names := DisableSelection(catalog, state, secret);
    if !Listable(catalog, refusals.versions, secret, Enabled) then (state, [], Fail(ListVersionsFailed(secret)))
    else if dryRun then (state, Reports(WouldDisable, names), Pass)
    else
      var k := Accepted(names, refusals.disable);
      SetAllForward(state, names[..k], Disabled);
      (SetAll(state, names[..k], Disabled), Reports(DisabledOk, names[..k]),
       if k == |names| then Pass else Fail(DisableFailed(names[k])))
  }

  /** The destroy pass over one secret as the store answers it: a refused
      listing changes nothing and fails; a dry run reports the DISABLED
      listing; a live run destroys it in order up to the first refused name
      and fails on that one. */
  function DestroyPass(catalog: map<string, seq<SecretVersion>>, state: map<string, State>, secret: string,
                       dryRun: bool, refusals: Refusals): (r: (map<string, State>, seq<Report>, Outcome))
    ensures Forward(state, r.0)
    ensures dryRun ==> r.0 == state
    ensures r.2.Fail? ==>
      || (r.2 == Fail(ListVersionsFailed(secret)) && !Listable(catalog, refusals.versions, secret, Disabled))
      || (&& r.2.error.DestroyFailed? && !dryRun && r.2.error.version in refusals.destroy
          && r.2.error.version in DestroySelection(catalog, state, secret))
  {
    var names := DestroySelection(catalog, state, secret);
    if !Listable(catalog, refusals.versions, secret, Disabled) then (state, [], Fail(ListVersionsFailed(secret)))
    else if dryRun then (state, Reports(WouldDestroy, names), Pass)
    else
      var k := Accepted(names, refusals.destroy);
      SetAllForward(state, names[..k], Destroyed);
      (SetAll(state, names[..k], Destroyed), Reports(DestroyedOk, names[..k]),
       if k == |names| then Pass else Fail(DestroyFailed(names[k])))
  }

  /** One secret as the store answers it: the disable pass and, unless it
      failed, the destroy pass over the states it left. */
  function SweepSecretUntil(catalog: map<string, seq<SecretVersion>>, state: map<string, State>, secret: string,
                            dryRun: bool, refusals: Refusals): (r: (map<string, State>, seq<Report>, Outcome))
    ensures Forward(state, r.0)
    ensures dryRun ==> r.0 == state
  {
    var d := DisablePass(catalog, state, secret, dryRun, refusals);
    if d.2.Fail? then d
    else
      var x := DestroyPass(catalog, d.0, secret, dryRun, refusals);
      ForwardTransitive(state, d.0, x.0);
      (x.0, d.1 + x.1, x.2)
  }

  /** The secrets one after another in listing order, as the store answers
      them, up to and including the first secret whose sweep fails. */
  function SweepAllUntil(catalog: map<string, seq<SecretVersion>>, state: map<string, State>, secrets: seq<string>,
                         dryRun: bool, refusals: Refusals): (r: (map<string, State>, seq<Report>, Outcome))
    ensures Forward(state, r.0)
    ensures dryRun ==> r.0 == state
    decreases |secrets|
  {
    if secrets == [] then (state, [], Pass)
    else
      var before := SweepAllUntil(catalog, state, secrets[..|secrets| - 1], dryRun, refusals);
      if before.2.Fail? then before
      else
        var last := SweepSecretUntil(catalog, before.0, secrets[|secrets| - 1], dryRun, refusals);
        ForwardTransitive(state, before.0, last.0);
        (last.0, before.1 + last.1, last.2)
  }

  /** A sweep of one secret that passes is the sweep `SweepSecret` defines. */
  lemma SweepSecretUntilPass(catalog: map<string, seq<SecretVersion>>, state: map<string, State>, secret: string,
                             dryRun: bool, refusals: Refusals)
    requires SweepSecretUntil(catalog, state, secret, dryRun, refusals).2 == Pass
    ensures var r := SweepSecretUntil(catalog, state, secret, dryRun, refusals);
      (r.0, r.1) == SweepSecret(catalog, state, secret, dryRun)
  {
    var disable := DisableSelection(catalog, state, secret);
    var d := DisablePass(catalog, state, secret, dryRun, refusals);
    assert d.2 == Pass;
    if !dryRun {
      assert disable[..|disable|] == disable;
      assert d.0 == SetAll(state, disable, Disabled);
      var destroy := DestroySelection(catalog, d.0, secret);
      assert destroy[..|destroy|] == destroy;
    }
  }

  /** A sweep of a project that passes is the sweep `SweepAll` defines. */
  lemma {:induction false} SweepAllUntilPass(catalog: map<string, seq<SecretVersion>>, state: map<string, State>,
                                             secrets: seq<string>, dryRun: bool, refusals: Refusals)
    requires SweepAllUntil(catalog, state, secrets, dryRun, refusals).2 == Pass
    ensures var r := SweepAllUntil(catalog, state, secrets, dryRun, refusals);
      (r.0, r.1) == SweepAll(catalog, state, secrets, dryRun)
    decreases |secrets|
  {
    if secrets != [] {
      var init := secrets[..|secrets| - 1];
      var before := SweepAllUntil(catalog, state, init, dryRun, refusals);
      SweepAllUntilPass(catalog, state, init, dryRun, refusals);
      SweepSecretUntilPass(catalog, before.0, secrets[|secrets| - 1], dryRun, refusals);
    }
  }

  /** The store refuses none of the requests a sweep of these secrets makes:
      each secret exists, both of its version listings are answered, and no
      version of it is refused a disable or a destroy. */
  ghost predicate NothingRefused(catalog: map<string, seq<SecretVersion>>, secrets: seq<string>, refusals: Refusals) {
    forall s :: s in secrets ==>
      && Listable(catalog, refusals.versions, s, Enabled)
      && Listable(catalog, refusals.versions, s, Disabled)
      && forall v :: v in catalog[s] ==> v.name !in refusals.disable && v.name !in refusals.destroy
  }

  /** A secret none of whose requests is refused is swept without failure. */
  lemma SweepSecretNothingRefused(catalog: map<string, seq<SecretVersion>>, state: map<string, State>, secret: string,
                                  dryRun: bool, refusals: Refusals)
    requires NothingRefused(catalog, [secret], refusals)
    ensures SweepSecretUntil(catalog, state, secret, dryRun, refusals).2 == Pass
  {
    assert secret in [secret];
    var disable := DisableSelection(catalog, state, secret);
    forall j | 0 <= j < |disable| ensures disable[j] !in refusals.disable {
      SelectedFromListing(catalog, state, secret, Enabled, disable[j]);
      var v := VersionOfName(catalog[secret], disable[j]);
    }
    var middle := DisablePass(catalog, state, secret, dryRun, refusals).0;
    var destroy := DestroySelection(catalog, middle, secret);
    forall j | 0 <= j < |destroy| ensures destroy[j] !in refusals.destroy {
      assert destroy[j] in destroy;
      SelectedFromListing(catalog, middle, secret, Disabled, destroy[j]);
      var v := VersionOfName(catalog[secret], destroy[j]);
    }
  }

  /** When the store refuses none of its requests, a sweep of a project
      passes and is the one `SweepAll` defines. */
  lemma {:induction false} SweepAllUntilNothingRefused(catalog: map<string, seq<SecretVersion>>, state: map<string, State>,
                                                       secrets: seq<string>, dryRun: bool, refusals: Refusals)
    requires NothingRefused(catalog, secrets, refusals)
    ensures var r := SweepAllUntil(catalog, state, secrets, dryRun, refusals);
      r.2 == Pass && (r.0, r.1) == SweepAll(catalog, state, secrets, dryRun)
    decreases |secrets|
  {
    if secrets != [] {
      var init := secrets[..|secrets| - 1];
      var last := secrets[|secrets| - 1];
      assert secrets == init + [last];
      SweepAllUntilNothingRefused(catalog, state, init, dryRun, refusals);
      var before := SweepAllUntil(catalog, state, init, dryRun, refusals);
      SweepSecretNothingRefused(catalog, before.0, last, dryRun, refusals);
      SweepAllUntilPass(catalog, state, secrets, dryRun, refusals);
    }
  }

  /** A refused name that belongs to no listed secret does not stop the
      sweep: one secret with a single ENABLED version, swept live while only
      the disable of "elsewhere" is refused, passes and reports nothing. */
  lemma ExampleRefusalElsewhere()
    ensures var catalog := map["s" := [SecretVersion("s/v1", 10, 0)]];
      var r := SweepAllUntil(catalog, map["s/v1" := Enabled], ["s"], false, Refusals({}, {"elsewhere"}, {}));
      r.2 == Pass && r.1 == []
  {
    var catalog := map["s" := [SecretVersion("s/v1", 10, 0)]];
    var state := map["s/v1" := Enabled];
    var refusals := Refusals({}, {"elsewhere"}, {});
    assert NothingRefused(catalog, ["s"], refusals);
    SweepAllUntilNothingRefused(catalog, state, ["s"], false, refusals);
    var vs := catalog["s"];
    assert WithState(vs, state, Enabled) == vs;
    assert LatestIndex(vs) == Some(0);
    assert DisableSelection(catalog, state, "s") == [];
    assert WithState(vs, state, Disabled) == [];
    assert SweepAll(catalog, state, ["s"], false) == SweepSecret(catalog, state, "s", false);
  }

  /** A sweep of one secret that fails names a request it made and the
      store refused: one of the secret's two version listings or, in a live
      run only, the disable or destroy of one of its versions. */
  lemma SweepSecretUntilFailure(catalog: map<string, seq<SecretVersion>>, state: map<string, State>, secret: string,
                                dryRun: bool, refusals: Refusals)
    ensures var out := SweepSecretUntil(catalog, state, secret, dryRun, refusals).2;
      out.Fail? ==>
        || (&& out.error == ListVersionsFailed(secret)
            && (!Listable(catalog, refusals.versions, secret, Enabled)
                || !Listable(catalog, refusals.versions, secret, Disabled)))
        || (&& out.error.DisableFailed? && !dryRun && out.error.version in refusals.disable
            && secret in catalog && out.error.version in NamesOf(catalog[secret]))
        || (&& out.error.DestroyFailed? && !dryRun && out.error.version in refusals.destroy
            && secret in catalog && out.error.version in NamesOf(catalog[secret]))
  {
    var d := DisablePass(catalog, state, secret, dryRun, refusals);
    if d.2.Fail? && d.2.error.DisableFailed? {
      SelectedFromListing(catalog, state, secret, Enabled, d.2.error.version);
    }
    if d.2.Pass? {
      var x := DestroyPass(catalog, d.0, secret, dryRun, refusals);
      if x.2.Fail? && x.2.error.DestroyFailed? {
        assert x.2.error.version in NamesOf(WithState(catalog[secret], d.0, Disabled));
        SelectedFromListing(catalog, d.0, secret, Disabled, x.2.error.version);
      }
    }
  }

  /** A sweep of a project that fails names a request it made and the store
      refused: a version listing of one of the secrets or, in a live run
      only, the disable or destroy of a version of one of them. */
  lemma {:induction false} SweepAllUntilFailure(catalog: map<string, seq<SecretVersion>>, state: map<string, State>,
                                                secrets: seq<string>, dryRun: bool, refusals: Refusals)
    ensures var out := SweepAllUntil(catalog, state, secrets, dryRun, refusals).2;
      out.Fail? ==>
        || (&& out.error.ListVersionsFailed? && out.error.secret in secrets
            && (!Listable(catalog, refusals.versions, out.error.secret, Enabled)
                || !Listable(catalog, refusals.versions, out.error.secret, Disabled)))
        || (&& out.error.DisableFailed? && !dryRun && out.error.version in refusals.disable
            && exists s :: s in secrets && s in catalog && out.error.version in NamesOf(catalog[s]))
        || (&& out.error.DestroyFailed? && !dryRun && out.error.version in refusals.destroy
            && exists s :: s in secrets && s in catalog && out.error.version in NamesOf(catalog[s]))
    decreases |secrets|
  {
    if secrets != [] {
      var init := secrets[..|secrets| - 1];
      var last := secrets[|secrets| - 1];
      assert secrets == init + [last];
      SweepAllUntilFailure(catalog, state, init, dryRun, refusals);
      var before := SweepAllUntil(catalog, state, init, dryRun, refusals);
      SweepSecretUntilFailure(catalog, before.0, last, dryRun, refusals);
    }
  }

  /** Once the sweep of the first j secrets has failed, the later secrets
      are not swept. */
  lemma {:induction false} SweepAllUntilStops(catalog: map<string, seq<SecretVersion>>, state: map<string, State>,
                                              secrets: seq<string>, dryRun: bool, refusals: Refusals, j: nat)
    requires j <= |secrets| && SweepAllUntil(catalog, state, secrets[..j], dryRun, refusals).2.Fail?
    ensures SweepAllUntil(catalog, state, secrets, dryRun, refusals)
         == SweepAllUntil(catalog, state, secrets[..j], dryRun, refusals)
    decreases |secrets|
  {
    if j < |secrets| {
      var init := secrets[..|secrets| - 1];
      assert init[..j] == secrets[..j];
      SweepAllUntilStops(catalog, state, init, dryRun, refusals, j);
    } else {
      assert secrets[..j] == secrets;
    }
  }

  /** The steady state of a secret: no DISABLED version and at most one ENABLED. */
  ghost predicate Swept(catalog: map<string, seq<SecretVersion>>, state: map<string, State>, secret: string) {
    && secret in catalog
    && (forall v :: v in catalog[secret] ==> v.name in state && state[v.name] != Disabled)
    && (forall v, w ::
          (v in catalog[secret] && w in catalog[secret] && v.name in state && w.name in state
           && state[v.name] == Enabled && state[w.name] == Enabled) ==> v == w)
  }

  /** Every selected name belongs to a listed version in state `st`. */
  lemma SelectedFromListing(catalog: map<string, seq<SecretVersion>>, state: map<string, State>, secret: string, st: State, n: string)
    requires secret in catalog
    requires n in NamesOf(WithState(catalog[secret], state, st))
    ensures n in state && state[n] == st && n in NamesOf(catalog[secret])
  {
    var v := VersionOfName(WithState(catalog[secret], state, st), n);
    NameInNames(catalog[secret], v);
  }

  /** A live sweep of one secret keeps the kept version if it was ENABLED,
      destroys every other ENABLED or DISABLED version of the secret, and
      touches no version of any other secret. */
  lemma SweepSecretOutcome(catalog: map<string, seq<SecretVersion>>, state: map<string, State>, secret: string)
    requires WellFormed(catalog, state) && secret in catalog
    ensures var after := SweepSecret(catalog, state, secret, false).0;
      && Forward(state, after)
      && (forall n :: n in state && n !in NamesOf(catalog[secret]) ==> after[n] == state[n])
      && (forall v :: v in catalog[secret] ==>
            after[v.name] == if state[v.name] == Enabled && v.name == KeptName(catalog, state, secret) then Enabled else Destroyed)
  {
    var enabled := EnabledListing(catalog, state, secret);
    var kept := KeptName(catalog, state, secret);
    var disable := DisableSelection(catalog, state, secret);
    var s1 := SetAll(state, disable, Disabled);
    var destroy := DestroySelection(catalog, s1, secret);
    var s2 := SetAll(s1, destroy, Destroyed);
    forall n | n in disable
      ensures n in state && state[n] == Enabled && n in NamesOf(catalog[secret])
    {
      SelectedFromListing(catalog, state, secret, Enabled, n);
    }
    forall n | n in destroy
      ensures n in s1 && s1[n] == Disabled && n in NamesOf(catalog[secret])
    {
      SelectedFromListing(catalog, s1, secret, Disabled, n);
    }
    forall v | v in catalog[secret]
      ensures s2[v.name] == if state[v.name] == Enabled && v.name == kept then Enabled else Destroyed
    {
      if state[v.name] == Enabled {
        NameInNames(enabled, v);
      }
      if s1[v.name] == Disabled {
        NameInNames(WithState(catalog[secret], s1, Disabled), v);
      }
    }
  }

  /** After a live sweep the secret is in its steady state. */
  lemma SweepSecretSwept(catalog: map<string, seq<SecretVersion>>, state: map<string, State>, secret: string)
    requires WellFormed(catalog, state) && secret in catalog
    ensures Swept(catalog, SweepSecret(catalog, state, secret, false).0, secret)
  {
    var after := SweepSecret(catalog, state, secret, false).0;
    SweepSecretOutcome(catalog, state, secret);
    forall v, w | v in catalog[secret] && w in catalog[secret] && after[v.name] == Enabled && after[w.name] == Enabled
      ensures v == w
    {
      SameNameSameVersion(catalog[secret], v, w);
    }
  }

  /** A live sweep of a project leaves every listed secret in its steady
      state, whatever secrets come after it, and moves states only forward. */
  lemma {:induction false} SweepAllSwept(catalog: map<string, seq<SecretVersion>>, state: map<string, State>, secrets: seq<string>)
    requires WellFormed(catalog, state)
    requires forall s :: s in secrets ==> s in catalog
    ensures var after := SweepAll(catalog, state, secrets, false).0;
      && Forward(state, after)
      && forall s :: s in secrets ==> Swept(catalog, after, s)
    decreases |secrets|
  {
    if secrets != [] {
      var init := secrets[..|secrets| - 1];
      var t := secrets[|secrets| - 1];
      assert secrets == init + [t];
      SweepAllSwept(catalog, state, init);
      var mid := SweepAll(catalog, state, init, false).0;
      WellFormedSameKeys(catalog, state, mid);
      SweepStep(catalog, mid, t, init);
      var after := SweepSecret(catalog, mid, t, false).0;
      assert SweepAll(catalog, state, secrets, false).0 == after;
      ForwardTransitive(state, mid, after);
    }
  }

  /** One more live sweep, of t, keeps the steady state of the secrets swept
      before it and brings t to its steady state. */
  lemma SweepStep(catalog: map<string, seq<SecretVersion>>, before: map<string, State>, t: string, done: seq<string>)
    requires WellFormed(catalog, before) && t in catalog
    requires forall s :: s in done ==> Swept(catalog, before, s)
    ensures var after := SweepSecret(catalog, before, t, false).0;
      && Forward(before, after)
      && Swept(catalog, after, t)
      && forall s :: s in done ==> Swept(catalog, after, s)
  {
    var after := SweepSecret(catalog, before, t, false).0;
    SweepSecretOutcome(catalog, before, t);
    SweepSecretSwept(catalog, before, t);
    forall s | s in done && s != t ensures Swept(catalog, after, s) {
      SweptKeptByOtherSweep(catalog, before, after, s, t);
    }
  }

  /** Well-formedness depends on the states' keys only. */
  lemma WellFormedSameKeys(catalog: map<string, seq<SecretVersion>>, a: map<string, State>, b: map<string, State>)
    requires WellFormed(catalog, a) && a.Keys == b.Keys
    ensures WellFormed(catalog, b)
  {
    forall s, v | s in catalog && v in catalog[s] ensures v.name in b {
      assert v.name in a;
    }
  }

  /** Moving versions whose state ranks no higher than `st` to `st` moves
      states only forward. */
  lemma SetAllForward(state: map<string, State>, names: seq<string>, st: State)
    requires forall n :: n in names ==> n in state && Rank(state[n]) <= Rank(st)
    ensures Forward(state, SetAll(state, names, st))
  {
  }

  /** Moving forward twice is moving forward. */
  lemma ForwardTransitive(a: map<string, State>, b: map<string, State>, c: map<string, State>)
    requires Forward(a, b) && Forward(b, c)
    ensures Forward(a, c)
  {
  }

  /** Sweeping secret t leaves the steady state of another secret s alone:
      no version name is shared between the two. */
  lemma SweptKeptByOtherSweep(catalog: map<string, seq<SecretVersion>>, before: map<string, State>,
                              after: map<string, State>, s: string, t: string)
    requires WellFormed(catalog, before) && s != t && t in catalog
    requires Swept(catalog, before, s)
    requires before.Keys == after.Keys
    requires forall n :: n in before && n !in NamesOf(catalog[t]) ==> after[n] == before[n]
    ensures Swept(catalog, after, s)
  {
    forall v | v in catalog[s] ensures after[v.name] == before[v.name] {
      if v.name in NamesOf(catalog[t]) {
        var w := VersionOfName(catalog[t], v.name);
        assert false;
      }
    }
  }

  /** A dry run, of one secret or of a project, leaves every state as it was. */
  lemma {:induction false} SweepAllDryRun(catalog: map<string, seq<SecretVersion>>, state: map<string, State>, secrets: seq<string>)
    ensures SweepAll(catalog, state, secrets, true).0 == state
    decreases |secrets|
  {
    if secrets != [] {
      SweepAllDryRun(catalog, state, secrets[..|secrets| - 1]);
    }
  }

  /** The names a dry run reports for a secret, "to disable and destroy" and
      "to destroy", are exactly the versions a live sweep from the same state
      destroys. */
  lemma DryRunPredictsLive(catalog: map<string, seq<SecretVersion>>, state: map<string, State>, secret: string)
    requires WellFormed(catalog, state) && secret in catalog
    ensures var live := SweepSecret(catalog, state, secret, false).0;
      forall n ::
        (n in DisableSelection(catalog, state, secret) || n in DestroySelection(catalog, state, secret))
        <==> n in NamesOf(catalog[secret]) && state[n] != Destroyed && live[n] == Destroyed
  {
    var live := SweepSecret(catalog, state, secret, false).0;
    SweepSecretOutcome(catalog, state, secret);
    forall n ensures
      (n in DisableSelection(catalog, state, secret) || n in DestroySelection(catalog, state, secret))
      <==> n in NamesOf(catalog[secret]) && state[n] != Destroyed && live[n] == Destroyed
    {
      if n in DisableSelection(catalog, state, secret) {
        SelectedFromListing(catalog, state, secret, Enabled, n);
      }
      if n in DestroySelection(catalog, state, secret) {
        SelectedFromListing(catalog, state, secret, Disabled, n);
      }
      if n in NamesOf(catalog[secret]) && state[n] != Destroyed && live[n] == Destroyed {
        var v := VersionOfName(catalog[secret], n);
        if state[n] == Enabled {
          NameInNames(EnabledListing(catalog, state, secret), v);
        } else {
          NameInNames(WithState(catalog[secret], state, Disabled), v);
        }
      }
    }
  }

  /** Sweeping a secret a second time selects nothing and changes nothing. */
  lemma SweepSecretIdempotent(catalog: map<string, seq<SecretVersion>>, state: map<string, State>, secret: string)
    requires WellFormed(catalog, state) && secret in catalog
    ensures var once := SweepSecret(catalog, state, secret, false).0;
      SweepSecret(catalog, once, secret, false) == (once, [])
  {
    var once := SweepSecret(catalog, state, secret, false).0;
    SecondDisableSelectsNothing(catalog, state, secret);
    SetAllNothing(once, Disabled);
    SweepSecretSwept(catalog, state, secret);
    SweptSelectsNoDestroy(catalog, once, secret);
    SetAllNothing(once, Destroyed);
    assert Reports(DisabledOk, []) + Reports(DestroyedOk, []) == [];
  }

  /** Moving no version changes nothing. */
  lemma SetAllNothing(state: map<string, State>, st: State)
    ensures SetAll(state, [], st) == state
  {
  }

  /** In the steady state there is nothing to destroy. */
  lemma SweptSelectsNoDestroy(catalog: map<string, seq<SecretVersion>>, state: map<string, State>, secret: string)
    requires Swept(catalog, state, secret)
    ensures DestroySelection(catalog, state, secret) == []
  {
    WithStateNone(catalog[secret], state, Disabled);
  }

  /** After a live sweep, the disable pass of a second sweep keeps the same
      version (if any is still ENABLED) and so selects nothing. */
  lemma SecondDisableSelectsNothing(catalog: map<string, seq<SecretVersion>>, state: map<string, State>, secret: string)
    requires WellFormed(catalog, state) && secret in catalog
    ensures DisableSelection(catalog, SweepSecret(catalog, state, secret, false).0, secret) == []
  {
    var once := SweepSecret(catalog, state, secret, false).0;
    var kept := KeptName(catalog, state, secret);
    SweepSecretOutcome(catalog, state, secret);
    var enabled := EnabledListing(catalog, once, secret);
    assert forall v :: v in enabled ==> v.name == kept;
    if enabled != [] {
      RescanKeepsKept(catalog[secret], enabled, EnabledListing(catalog, state, secret));
    }
    OnlyKeptSelectsNothing(enabled, kept);
  }

  /** A listing whose versions all carry the name kept by an earlier scan,
      drawn from the same distinctly named versions, is scanned to the same
      name. */
  lemma RescanKeepsKept(vs: seq<SecretVersion>, enabled: seq<SecretVersion>, before: seq<SecretVersion>)
    requires DistinctNames(vs) && enabled != []
    requires forall v :: v in enabled ==> v in vs && v.name == LatestName(before)
    requires forall v :: v in before ==> v in vs
    ensures LatestName(enabled) == LatestName(before)
  {
    if LatestIndex(enabled).None? {
      LatestIndexCharacterised(enabled, 0);
      if LatestName(before) != "" {
        var k := LatestIndex(before).value;
        SameNameSameVersion(vs, enabled[0], before[k]);
        assert false;
      }
    }
  }

  /** A listing holding only the kept name selects nothing. */
  lemma OnlyKeptSelectsNothing(enabled: seq<SecretVersion>, kept: string)
    requires forall v :: v in enabled ==> v.name == kept
    ensures DisableNames(enabled, kept) == []
  {
    var disable := DisableNames(enabled, kept);
    if disable != [] {
      var v := VersionOfName(enabled, disable[0]);
      assert false;
    }
  }
}
