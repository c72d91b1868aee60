/** Version records as the cleaner reads them from an ENABLED listing, and the
    selection it makes from them: the latest version (the one it keeps) and
    the versions it disables. */
module Versions {

  /** The widths of a protobuf timestamp's seconds and nanoseconds. */
  newtype int64 = x: int | -0x8000_0000_0000_0000 <= x < 0x8000_0000_0000_0000
  newtype int32 = x: int | -0x8000_0000 <= x < 0x8000_0000

  datatype Option<T> = None | Some(value: T)

  /** A listed version: its fully qualified name and its creation time. */
  datatype SecretVersion = SecretVersion(name: string, createTimeSeconds: int64, createTimeNanos: int32)

  /** (seconds, nanos) is strictly later than (s, n): seconds decide, nanos break a tie. */
  predicate Later(seconds: int64, nanos: int32, s: int64, n: int32) {
    seconds > s || (seconds == s && nanos > n)
  }

  /** v was created strictly after w. */
  predicate Newer(v: SecretVersion, w: SecretVersion) {
    Later(v.createTimeSeconds, v.createTimeNanos, w.createTimeSeconds, w.createTimeNanos)
  }

  /** v was created strictly after the (0, 0) the scan starts from. */
  predicate AfterZero(v: SecretVersion) {
    Later(v.createTimeSeconds, v.createTimeNanos, 0, 0)
  }

  /** The names of a listing, in order. */
  function NamesOf(vs: seq<SecretVersion>): seq<string> {
    seq(|vs|, i requires 0 <= i < |vs| => vs[i].name)
  }

  /** No two versions of a listing share a name. */
  predicate DistinctNames(vs: seq<SecretVersion>) {
    forall i, j :: 0 <= i < j < |vs| ==> vs[i].name != vs[j].name
  }

  /** No name occurs twice. */
  predicate Distinct(names: seq<string>) {
    forall i, j :: 0 <= i < j < |names| ==> names[i] != names[j]
  }

  /** A listed version's name is among the listing's names. */
  lemma NameInNames(vs: seq<SecretVersion>, v: SecretVersion)
    requires v in vs
    ensures v.name in NamesOf(vs)
  {
    var i :| 0 <= i < |vs| && vs[i] == v;
    assert NamesOf(vs)[i] == v.name;
  }

  /** A listed name belongs to some listed version. */
  lemma VersionOfName(vs: seq<SecretVersion>, n: string) returns (v: SecretVersion)
    requires n in NamesOf(vs)
    ensures v in vs && v.name == n
  {
    var i :| 0 <= i < |vs| && NamesOf(vs)[i] == n;
    v := vs[i];
  }

  /** With distinct names, a name identifies its version. */
  lemma SameNameSameVersion(vs: seq<SecretVersion>, v: SecretVersion, w: SecretVersion)
    requires DistinctNames(vs) && v in vs && w in vs && v.name == w.name
    ensures v == w
  {
    var i :| 0 <= i < |vs| && vs[i] == v;
    var j :| 0 <= j < |vs| && vs[j] == w;
    assert i == j;
  }

  /** Index i holds the version the scan keeps: created after (0, 0), no
      listed version is newer, and every earlier version is strictly older
      (so of several versions with the same timestamp the first one wins). */
  ghost predicate IsLatest(vs: seq<SecretVersion>, i: int) {
    && 0 <= i < |vs|
    && AfterZero(vs[i])
    && (forall j :: 0 <= j < |vs| ==> !Newer(vs[j], vs[i]))
    && (forall j :: 0 <= j < i ==> Newer(vs[i], vs[j]))
  }

  /** The index of the version the scan over `vs` ends on, or None when no
      version is later than (0, 0). */
  function LatestIndex(vs: seq<SecretVersion>): (r: Option<nat>)
    ensures r.Some? ==> r.value < |vs| && AfterZero(vs[r.value])
    decreases |vs|
  {
    if vs == [] then None
    else
      var last := vs[|vs| - 1];
      match LatestIndex(vs[..|vs| - 1])
      case None => if AfterZero(last) then Some(|vs| - 1) else None
      case Some(i) => if Newer(last, vs[i]) then Some(|vs| - 1) else Some(i)
  }

  /** The name the scan leaves in `latestVerName`: empty when no version is
      later than (0, 0). */
  function LatestName(vs: seq<SecretVersion>): (r: string)
    ensures r == "" || r in NamesOf(vs)
  {
    match LatestIndex(vs)
    case None => ""
    case Some(i) => assert NamesOf(vs)[i] == vs[i].name; vs[i].name
  }

  /** The names the disable loop acts on, in listing order. */
  function DisableNames(vs: seq<SecretVersion>, latest: string): (r: seq<string>)
    ensures |r| <= |vs|
    ensures forall n :: n in r <==> n != latest && n in NamesOf(vs)
    decreases |vs|
  {
    if vs == [] then []
    else
      var init := vs[..|vs| - 1];
      var last := vs[|vs| - 1];
      assert NamesOf(vs) == NamesOf(init) + [last.name];
      DisableNames(init, latest) + (if last.name != latest then [last.name] else [])
  }

  /** The scan ends on the first greatest timestamp after (0, 0), or on
      nothing when no version is later than (0, 0). */
  lemma {:induction false} LatestIndexIsLatest(vs: seq<SecretVersion>)
    ensures LatestIndex(vs).Some? ==> IsLatest(vs, LatestIndex(vs).value)
    ensures LatestIndex(vs).None? ==> forall j :: 0 <= j < |vs| ==> !AfterZero(vs[j])
    decreases |vs|
  {
    if vs != [] {
      var init := vs[..|vs| - 1];
      LatestIndexIsLatest(init);
      assert forall j :: 0 <= j < |init| ==> init[j] == vs[j];
    }
  }

  /** The scan's result is characterised without reference to the scan:
      it ends on index i exactly when i is the first greatest timestamp
      later than (0, 0), and it ends on nothing exactly when no version is
      later than (0, 0). */
  lemma LatestIndexCharacterised(vs: seq<SecretVersion>, i: int)
    ensures LatestIndex(vs) == Some(i) <==> IsLatest(vs, i)
    ensures LatestIndex(vs) == None <==> forall j :: 0 <= j < |vs| ==> !AfterZero(vs[j])
  {
    LatestIndexIsLatest(vs);
    if IsLatest(vs, i) {
      assert IsLatest(vs, LatestIndex(vs).value);
    }
  }

  /** When some version is later than (0, 0), the kept version's timestamp
      is at least that of every listed version. */
  lemma LatestIsGreatest(vs: seq<SecretVersion>, j: int)
    requires 0 <= j < |vs| && AfterZero(vs[j])
    ensures LatestIndex(vs).Some?
    ensures !Newer(vs[j], vs[LatestIndex(vs).value])
    ensures LatestName(vs) == vs[LatestIndex(vs).value].name
  {
    LatestIndexIsLatest(vs);
  }

  /** Two versions with the same timestamp: the later-listed one is never kept. */
  lemma TieGoesToFirst(vs: seq<SecretVersion>, i: int, j: int)
    requires 0 <= i < j < |vs|
    requires vs[i].createTimeSeconds == vs[j].createTimeSeconds
    requires vs[i].createTimeNanos == vs[j].createTimeNanos
    ensures LatestIndex(vs) != Some(j)
  {
    LatestIndexIsLatest(vs);
  }

  /** As written, a listing in which no version is later than (0, 0) keeps
      the empty name, so every version with a non-empty name is selected. */
  lemma NothingAfterZeroSelectsAllNamed(vs: seq<SecretVersion>)
    requires forall j :: 0 <= j < |vs| ==> !AfterZero(vs[j])
    ensures LatestName(vs) == ""
    ensures forall n :: n in DisableNames(vs, LatestName(vs)) <==> n != "" && n in NamesOf(vs)
  {
    LatestIndexCharacterised(vs, 0);
  }

  /** Concatenated listings select the concatenation of their selections:
      the selection keeps listing order. */
  lemma {:induction false} DisableNamesAppend(a: seq<SecretVersion>, b: seq<SecretVersion>, latest: string)
    ensures DisableNames(a + b, latest) == DisableNames(a, latest) + DisableNames(b, latest)
    decreases |b|
  {
    if b == [] {
      assert a + b == a;
    } else {
      var init := b[..|b| - 1];
      DisableNamesAppend(a, init, latest);
      assert (a + b)[..|a + b| - 1] == a + init;
    }
  }

  /** One more listed version extends the selection by its name, unless it
      is the kept one. */
  lemma DisableNamesStep(vs: seq<SecretVersion>, i: int, latest: string)
    requires 0 <= i < |vs|
    ensures DisableNames(vs[..i + 1], latest)
         == DisableNames(vs[..i], latest) + (if vs[i].name != latest then [vs[i].name] else [])
  {
    assert vs[..i + 1][..i] == vs[..i];
  }

  /** The selection made from a prefix of the listing is a prefix of the
      whole selection, and the next selected name follows it. */
  lemma DisableNamesSplit(vs: seq<SecretVersion>, i: int, latest: string)
    requires 0 <= i < |vs| && vs[i].name != latest
    ensures var all := DisableNames(vs, latest);
            var done := DisableNames(vs[..i], latest);
            |done| < |all| && all[..|done|] == done && all[|done|] == vs[i].name
  {
    DisableNamesStep(vs, i, latest);
    assert vs == vs[..i + 1] + vs[i + 1..];
    DisableNamesAppend(vs[..i + 1], vs[i + 1..], latest);
  }

  /** With distinct version names, no name is selected twice. */
  lemma {:induction false} DisableNamesDistinct(vs: seq<SecretVersion>, latest: string)
    requires DistinctNames(vs)
    ensures Distinct(DisableNames(vs, latest))
    decreases |vs|
  {
    if vs != [] {
      var init := vs[..|vs| - 1];
      var last := vs[|vs| - 1];
      assert DistinctNames(init);
      DisableNamesDistinct(init, latest);
      assert last.name !in NamesOf(init);
    }
  }

  /** An empty listing keeps the empty name and selects nothing. */
  lemma EmptyListingSelectsNothing(latest: string)
    ensures LatestName([]) == "" && DisableNames([], latest) == []
  {
  }

  /** A listing of one version selects nothing, unless its single
      version has a non-empty name and a timestamp not later than (0, 0). */
  lemma SingleVersionSelection(v: SecretVersion)
    ensures DisableNames([v], LatestName([v])) == if AfterZero(v) || v.name == "" then [] else [v.name]
  {
    assert [v][..0] == [];
  }

  /** A worked listing: (100, 0), (100, 5), (90, 0) keeps the second and
      disables the other two in listing order. */
  lemma ExampleThreeEnabled()
    ensures var vs := [SecretVersion("v1", 100, 0), SecretVersion("v2", 100, 5), SecretVersion("v3", 90, 0)];
            LatestName(vs) == "v2" && DisableNames(vs, "v2") == ["v1", "v3"]
  {
    var vs := [SecretVersion("v1", 100, 0), SecretVersion("v2", 100, 5), SecretVersion("v3", 90, 0)];
    assert vs[..2][..1] == [vs[0]];
    assert vs[..2][..0] == [];
    assert vs[..1] == [vs[0]];
    assert vs[..2] == [vs[0], vs[1]];
  }
}
