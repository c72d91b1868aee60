/** An in-memory stand-in for the Secret Manager client: the secrets of each
    project, the versions of each secret in listing order, the state of every
    version, and, for each kind of call, the requests the store answers with
    an error. */
module SecretStore {
  import opened Versions

  /** The lifecycle state of a version. */
  datatype State = Enabled | Disabled | Destroyed

  /** Why a run aborts (the cleaner's `log.Fatalf` and usage exit). */
  datatype Error =
    | MissingProject
    | ListSecretsFailed(parent: string)
    | ListVersionsFailed(secret: string)
    | DisableFailed(version: string)
    | DestroyFailed(version: string)

  datatype Result<T> = Ok(value: T) | Err(error: Error)

  datatype Outcome = Pass | Fail(error: Error)

  /** The requests a store refuses, one set per kind of state-dependent
      call: version listings by (secret, state filter), disables and
      destroys by version name. */
  datatype Refusals = Refusals(versions: set<(string, State)>, disable: set<string>, destroy: set<string>)

  /** States only move forward: ENABLED, then DISABLED, then DESTROYED. */
  function Rank(s: State): nat {
    match s
    case Enabled => 0
    case Disabled => 1
    case Destroyed => 2
  }

  /** Every version keeps its place in the map and no state moves backwards. */
  ghost predicate Forward(before: map<string, State>, after: map<string, State>) {
    before.Keys == after.Keys && forall n :: n in before ==> Rank(before[n]) <= Rank(after[n])
  }

  /** The listing of `vs` under a state filter: the versions whose state is
      `st`, in listing order. */
  function WithState(vs: seq<SecretVersion>, state: map<string, State>, st: State): (r: seq<SecretVersion>)
    ensures |r| <= |vs|
    ensures forall v :: v in r <==> v in vs && v.name in state && state[v.name] == st
  {
    if vs == [] then []
    else
      (if vs[0].name in state && state[vs[0].name] == st then [vs[0]] else [])
      + WithState(vs[1..], state, st)
  }

  /** A listing is empty when no version has the filtered state. */
  lemma {:induction false} WithStateNone(vs: seq<SecretVersion>, state: map<string, State>, st: State)
    requires forall v :: v in vs ==> !(v.name in state && state[v.name] == st)
    ensures WithState(vs, state, st) == []
    decreases |vs|
  {
    if vs != [] {
      assert vs[0] in vs;
      forall v | v in vs[1..] ensures !(v.name in state && state[v.name] == st) {
        assert v in vs;
      }
      WithStateNone(vs[1..], state, st);
    }
  }

  /** `state` after every version named in `names` has been moved to `st`. */
  function SetAll(state: map<string, State>, names: seq<string>, st: State): map<string, State> {
    map n | n in state :: if n in names then st else state[n]
  }

  /** A version keeps its key; it has the new state exactly when it is named. */
  lemma SetAllLookup(state: map<string, State>, names: seq<string>, st: State, n: string)
    requires n in state
    ensures n in SetAll(state, names, st)
    ensures SetAll(state, names, st)[n] == if n in names then st else state[n]
  {
  }

  /** Moving one more version is one map update. */
  lemma SetAllSnoc(state: map<string, State>, names: seq<string>, name: string, st: State)
    requires name in state
    ensures SetAll(state, names + [name], st) == SetAll(state, names, st)[name := st]
  {
  }

  /** The number of leading names the store accepts before it refuses one. */
  function Accepted(names: seq<string>, refused: set<string>): (k: nat)
    ensures k <= |names|
    ensures forall j :: 0 <= j < k ==> names[j] !in refused
    ensures k < |names| ==> names[k] in refused
  {
    if names == [] || names[0] in refused then 0
    else 1 + Accepted(names[1..], refused)
  }

  /** The store accepts the first k names and refuses the next one. */
  lemma {:induction false} AcceptedAt(names: seq<string>, refused: set<string>, k: int)
    requires 0 <= k < |names| && names[k] in refused
    requires forall j :: 0 <= j < k ==> names[j] !in refused
    ensures Accepted(names, refused) == k
    decreases k
  {
    if k > 0 {
      AcceptedAt(names[1..], refused, k - 1);
    }
  }

  /** Version names are fully qualified: distinct within a secret and never
      shared between two secrets; every listed version has a state. */
  ghost predicate WellFormed(catalog: map<string, seq<SecretVersion>>, state: map<string, State>) {
    && (forall s :: s in catalog ==> DistinctNames(catalog[s]))
    && (forall s, v :: s in catalog && v in catalog[s] ==> v.name in state)
    && (forall s, t, v, w :: s in catalog && t in catalog && v in catalog[s] && w in catalog[t] && v.name == w.name ==> s == t)
  }

  lemma {:induction false} WithStateDistinct(vs: seq<SecretVersion>, state: map<string, State>, st: State)
    requires DistinctNames(vs)
    ensures DistinctNames(WithState(vs, state, st))
    decreases |vs|
  {
    if vs != [] {
      var rest := WithState(vs[1..], state, st);
      assert DistinctNames(vs[1..]);
      WithStateDistinct(vs[1..], state, st);
      if vs[0].name in state && state[vs[0].name] == st {
        forall v | v in rest ensures v.name != vs[0].name {
          var j :| 0 <= j < |vs[1..]| && vs[1..][j] == v;
          assert vs[j + 1] == v;
        }
        var r := [vs[0]] + rest;
        assert WithState(vs, state, st) == r;
        forall i, j | 0 <= i < j < |r| ensures r[i].name != r[j].name {
          assert r[j] == rest[j - 1];
          if i > 0 {
            assert r[i] == rest[i - 1];
          }
        }
      } else {
        assert WithState(vs, state, st) == rest;
      }
    }
  }

  /** The store answers a listing of the versions of `secret` in state
      `filter`: the secret exists and that listing is not refused. */
  predicate Listable(catalog: map<string, seq<SecretVersion>>, versionsRefused: set<(string, State)>,
                     secret: string, filter: State) {
    secret in catalog && (secret, filter) !in versionsRefused
  }

  class Store {
    const projects: map<string, seq<string>>
    const catalog: map<string, seq<SecretVersion>>
    /** Parents whose secret listing fails. */
    const listRefused: set<string>
    /** (secret, state filter) pairs whose version listing fails. */
    const versionsRefused: set<(string, State)>
    /** Versions whose disable request fails. */
    const disableRefused: set<string>
    /** Versions whose destroy request fails. */
    const destroyRefused: set<string>
    /** The state of every version; the only part of the store that changes. */
    var state: map<string, State>

    ghost predicate Valid()
      reads this
    {
      WellFormed(catalog, state)
    }

    constructor (projects: map<string, seq<string>>, catalog: map<string, seq<SecretVersion>>,
                 state: map<string, State>, listRefused: set<string>, versionsRefused: set<(string, State)>,
                 disableRefused: set<string>, destroyRefused: set<string>)
      requires WellFormed(catalog, state)
      ensures Valid()
      ensures this.projects == projects && this.catalog == catalog && this.state == state
      ensures this.listRefused == listRefused && this.versionsRefused == versionsRefused
      ensures this.disableRefused == disableRefused && this.destroyRefused == destroyRefused
    {
      this.projects := projects;
      this.catalog := catalog;
      this.state := state;
      this.listRefused := listRefused;
      this.versionsRefused := versionsRefused;
      this.disableRefused := disableRefused;
      this.destroyRefused := destroyRefused;
    }

    /** The store's refusals of version listings, disables and destroys. */
    function Refused(): Refusals {
      Refusals(versionsRefused, disableRefused, destroyRefused)
    }

    predicate CanListSecrets(parent: string) {
      parent in projects && parent !in listRefused
    }

    predicate CanListVersions(secret: string, filter: State) {
      Listable(catalog, versionsRefused, secret, filter)
    }

    /** All secrets of a project, every page drained, in listing order. */
    method ListSecrets(parent: string) returns (r: Result<seq<string>>)
      ensures CanListSecrets(parent) ==> r == Ok(projects[parent])
      ensures !CanListSecrets(parent) ==> r == Err(ListSecretsFailed(parent))
    {
      if CanListSecrets(parent) {
        r := Ok(projects[parent]);
      } else {
        r := Err(ListSecretsFailed(parent));
      }
    }

    /** All versions of a secret in state `filter`, in listing order: a
        snapshot of the state at the time of the call. */
    method ListSecretVersions(secret: string, filter: State) returns (r: Result<seq<SecretVersion>>)
      ensures CanListVersions(secret, filter) ==> r == Ok(WithState(catalog[secret], state, filter))
      ensures !CanListVersions(secret, filter) ==> r == Err(ListVersionsFailed(secret))
    {
      if CanListVersions(secret, filter) {
        r := Ok(WithState(catalog[secret], state, filter));
      } else {
        r := Err(ListVersionsFailed(secret));
      }
    }

    /** Moves one ENABLED or DISABLED version to DISABLED; refuses unknown or
        destroyed versions and names in `disableRefused`. */
    method DisableSecretVersion(name: string) returns (out: Outcome)
      modifies this`state
      ensures old(Valid()) ==> Valid()
      ensures out.Pass? <==> name in old(state) && old(state)[name] != Destroyed && name !in disableRefused
      ensures out.Fail? ==> out == Fail(DisableFailed(name)) && state == old(state)
      ensures out.Pass? ==> state == old(state)[name := Disabled]
    {
      if name in state && state[name] != Destroyed && name !in disableRefused {
        state := state[name := Disabled];
        out := Pass;
      } else {
        out := Fail(DisableFailed(name));
      }
    }

    /** Moves one version that is not yet destroyed to DESTROYED; refuses
        unknown or destroyed versions and names in `destroyRefused`. */
    method DestroySecretVersion(name: string) returns (out: Outcome)
      modifies this`state
      ensures old(Valid()) ==> Valid()
      ensures out.Pass? <==> name in old(state) && old(state)[name] != Destroyed && name !in destroyRefused
      ensures out.Fail? ==> out == Fail(DestroyFailed(name)) && state == old(state)
      ensures out.Pass? ==> state == old(state)[name := Destroyed]
    {
      if name in state && state[name] != Destroyed && name !in destroyRefused {
        state := state[name := Destroyed];
        out := Pass;
      } else {
        out := Fail(DestroyFailed(name));
      }
    }
  }
}
