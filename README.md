# secrets-cleaner, modelled in Dafny

The cleaner is a command-line tool for a cloud secret manager. For every
secret of a project it takes the ENABLED versions and keeps the one with the
latest creation timestamp (seconds first, then nanoseconds). It disables every
other ENABLED version. It then lists the secret's DISABLED versions and destroys
all of them. In a dry run it only prints what it would disable and destroy. The
tool aborts when no project is given, and at the first failed store call.

The model has four modules:

- `Versions` (versions.dfy) covers the version records and the pure selection. `LatestIndex` and
  `LatestName` are the result of the running-maximum scan. `DisableNames` is the list of
  names the disable loop acts on.
- `SecretStore` (store.dfy) covers the store the cleaner talks to, as a class `Store`:
  - the secrets of each project;
  - each secret's versions in listing order;
  - the state of each version, the only part that changes;
  - for each kind of call, the requests the store answers with an error: the parents
    whose secret listing fails, the (secret, state filter) pairs whose version listing
    fails, and the versions whose disable or destroy request fails. Each kind of call
    fails independently of the others.

  A listing under a state filter is `WithState`. Moving a set of versions to a state is
  `SetAll`. `Accepted` is how far a loop gets before the first refused call.
- `SweepSpec` (sweep.dfy) covers the reference definition of a sweep. `SweepSecret` and
  `SweepAll` are the new states and printed lines for one secret and for a project when
  the store answers every request. `DisablePass`, `DestroyPass`, `SweepSecretUntil` and
  `SweepAllUntil` add the store's refusals: they give the new states, the printed lines
  and the outcome of a sweep that stops at the first refused request. Its lemmas cover:
  - when a sweep fails, and that it passes when nothing it requests is refused;
  - the steady state after a live sweep;
  - dry runs;
  - idempotence.
- `Cleaner` (cleaner.dfy) holds the procedures themselves, as methods with the source's
  loops, proved against `SweepSpec` and `Versions`. Printed lines become a returned
  `seq<Report>`. `log.Fatalf` and the usage exit become a `Fail` outcome.

One behaviour follows from the code as written. The scan starts from (0, 0) with an
empty name. If no ENABLED version is later than (0, 0), the kept name stays `""`, so
every ENABLED version with a non-empty name is disabled. This is
`Versions.NothingAfterZeroSelectsAllNamed`. Real creation times are after 1970, so the
case does not arise in practice. It is modelled as written.

`cleaner.go` has no keep-count: `destroyDisabledVersions` (cleaner.go:123-154)
destroys every DISABLED version, and the model does the same.

## Model

| member | source | states |
|---|---|---|
| Versions.LatestIndex | cleaner.go:82-99 | the scan's final index, if any, is in range and its timestamp is later than (0, 0) |
| Versions.DisableNames | cleaner.go:101-119 | a name is selected exactly when it is listed and differs from the kept name; there are never more names than versions |
| Versions.LatestName | cleaner.go:82-99 | the final `latestVerName`: the name of one of the listed versions, or empty |
| Versions.LatestIndexIsLatest | cleaner.go:85-98 | the scan ends on a version that no listed version is newer than and that is strictly newer than every version before it; it ends on nothing only when no version is later than (0, 0) |
| Versions.LatestIndexCharacterised | cleaner.go:82-99 | both directions: the scan ends on index i if and only if i is the first greatest timestamp after (0, 0), and on nothing if and only if no version is later than (0, 0) |
| Versions.LatestIsGreatest | cleaner.go:89-98 | when some version is later than (0, 0) a version is kept, and no listed version is newer than it |
| Versions.TieGoesToFirst | cleaner.go:89-98 | of two versions with identical (seconds, nanos), the later-listed one is never kept |
| Versions.NothingAfterZeroSelectsAllNamed | cleaner.go:82-102 | with no version later than (0, 0), the kept name is empty and every version with a non-empty name is selected for disabling |
| Versions.EmptyListingSelectsNothing | cleaner.go:82-102 | an empty ENABLED listing keeps the empty name and disables nothing |
| Versions.DisableNamesAppend | cleaner.go:101-119 | the selection from two concatenated listings is the concatenation of their selections (listing order is kept) |
| Versions.DisableNamesStep | cleaner.go:101-102 | one more listed version adds its name at the end unless it is the kept one |
| Versions.DisableNamesSplit | cleaner.go:101-119 | the selection up to version i is a prefix of the whole selection, and the name of version i comes next |
| Versions.DisableNamesDistinct | cleaner.go:101-119 | with distinct version names, no version is selected twice |
| Versions.SingleVersionSelection | cleaner.go:82-102 | a single ENABLED version is kept unless its timestamp is not after (0, 0) and its name is non-empty |
| Versions.ExampleThreeEnabled | cleaner.go:82-119 | (100,0), (100,5), (90,0) keeps the second and disables the first and third, in that order |
| SecretStore.WithState | cleaner.go:61-76 | the filtered listing holds exactly the listed versions in the requested state and is no longer than the catalog |
| SecretStore.WithStateNone | cleaner.go:125-137 | a listing is empty when no version has the filtered state |
| SecretStore.WithStateDistinct | cleaner.go:125-137 | a filtered listing of distinctly named versions is distinctly named |
| SecretStore.Accepted | cleaner.go:109-112 | the count of leading names the store accepts: all before it are accepted and the one at it is refused |
| SecretStore.AcceptedAt | cleaner.go:144-147 | if the first refusal is at position k, the loop gets exactly k names through |
| SecretStore.SetAllSnoc | cleaner.go:109 | moving one more version is a single map update |
| SecretStore.Store.constructor | cleaner.go:171-175 | the store starts with the given projects, catalog, states and refusals, well formed |
| SecretStore.Store.ListSecrets | cleaner.go:44-54 | the whole secret listing of a known parent, or a listing error for an unknown or refused one |
| SecretStore.Store.ListSecretVersions | cleaner.go:66-76 | the versions of a secret in the filtered state, in listing order, or a listing error when that (secret, filter) listing is refused |
| SecretStore.Store.DisableSecretVersion | cleaner.go:109-112 | succeeds if and only if the version exists, is not destroyed and its disable request is not refused; then exactly that version becomes DISABLED, otherwise nothing changes; the store stays well formed |
| SecretStore.Store.DestroySecretVersion | cleaner.go:144-147 | succeeds if and only if the version exists, is not destroyed and its destroy request is not refused; then exactly that version becomes DESTROYED, otherwise nothing changes; the store stays well formed |
| SweepSpec.DisableSelection | cleaner.go:61-119 | the names the disable pass acts on: every one is ENABLED and none is the kept name |
| SweepSpec.DestroySelection | cleaner.go:125-153 | the names the destroy pass acts on, the whole DISABLED listing with no retention count: every one is DISABLED |
| SweepSpec.SweepSecret | cleaner.go:186-187 | one secret: the disable pass, then a fresh DISABLED listing and the destroy pass; the new states only move forward |
| SweepSpec.SweepAll | cleaner.go:182-188 | the secrets one after another in listing order, reports concatenated; the new states only move forward |
| SweepSpec.DisablePass | cleaner.go:59-120 | the disable pass as the store answers it; states only move forward, a dry run changes nothing, and a failure is the refused ENABLED listing or, in a live run only, a refused disable of a selected version |
| SweepSpec.DestroyPass | cleaner.go:123-154 | the destroy pass as the store answers it; states only move forward, a dry run changes nothing, and a failure is the refused DISABLED listing or, in a live run only, a refused destroy of a listed version |
| SweepSpec.SweepSecretUntil | cleaner.go:186-187 | the disable pass and, unless it failed, the destroy pass over the states it left; states only move forward and a dry run changes nothing |
| SweepSpec.SweepAllUntil | cleaner.go:182-188 | the secrets in listing order up to and including the first whose sweep fails; states only move forward and a dry run changes nothing |
| SweepSpec.SweepSecretUntilPass | cleaner.go:186-187 | a sweep of one secret that passes has exactly the states and lines `SweepSecret` gives |
| SweepSpec.SweepAllUntilPass | cleaner.go:182-188 | a sweep of a project that passes has exactly the states and lines `SweepAll` gives |
| SweepSpec.SweepSecretNothingRefused | cleaner.go:59-154 | a secret whose listings are answered and none of whose versions is refused a disable or a destroy is swept without failure |
| SweepSpec.SweepAllUntilNothingRefused | cleaner.go:182-188 | when no request of the sweep is refused, the sweep of the project passes and equals `SweepAll` |
| SweepSpec.ExampleRefusalElsewhere | cleaner.go:101-119 | a single ENABLED version swept live while only the disable of an unrelated name is refused: the sweep passes and prints nothing |
| SweepSpec.SweepSecretUntilFailure | cleaner.go:59-154 | a failed sweep of a secret names a refused request it made: one of the secret's two listings or, in a live run only, the disable or destroy of one of its versions |
| SweepSpec.SweepAllUntilFailure | cleaner.go:182-188 | a failed sweep of a project names a refused request it made: a listing of one of its secrets or, in a live run only, the disable or destroy of a version of one of them |
| SweepSpec.SweepAllUntilStops | cleaner.go:182-188 | once the sweep of the first secrets has failed, no later secret is swept (the abort ends the loop) |
| SweepSpec.SetAllForward | cleaner.go:101-153 | moving versions to a state that ranks no lower than theirs moves states only forward |
| SweepSpec.SweepSecretOutcome | cleaner.go:186-187 | after a live sweep of a secret its kept ENABLED version stays ENABLED, every other ENABLED or DISABLED version is DESTROYED, versions of other secrets are untouched and states only move forward |
| SweepSpec.SweepSecretSwept | cleaner.go:186-187 | after a live sweep of a secret none of its versions is DISABLED and at most one is ENABLED |
| SweepSpec.SweepAllSwept | cleaner.go:182-188 | after a live sweep of a project every listed secret is in that steady state, and states only moved forward |
| SweepSpec.SweepStep | cleaner.go:182-188 | sweeping one more secret keeps the secrets swept before it in their steady state |
| SweepSpec.SweptKeptByOtherSweep | cleaner.go:182-188 | sweeping another secret does not disturb a swept secret, since no version name is shared |
| SweepSpec.SweepAllDryRun | cleaner.go:106-107 | a dry run of a whole project leaves every state unchanged |
| SweepSpec.DryRunPredictsLive | cleaner.go:106-107 | the names a dry run reports for a secret are exactly the not-yet-destroyed versions that a live sweep from the same state destroys |
| SweepSpec.SweepSecretIdempotent | cleaner.go:182-188 | sweeping a secret a second time changes nothing and reports nothing |
| SweepSpec.SweptSelectsNoDestroy | cleaner.go:125-137 | a swept secret has nothing to destroy |
| SweepSpec.SecondDisableSelectsNothing | cleaner.go:82-119 | after a live sweep the disable pass selects nothing |
| SweepSpec.SelectedFromListing | cleaner.go:61-76 | every selected name belongs to a version of the secret in the filtered state |
| Cleaner.ProjectParent | cleaner.go:177 | the listing parent starts with `projects/` and the project follows it, so the project can be read back |
| Cleaner.ListSecrets | cleaner.go:39-56 | returns the project's secret names in listing order, one per listed secret, or the listing error |
| Cleaner.FindLatest | cleaner.go:82-99 | the running maximum with its two comparisons yields the name `Versions.LatestName` defines |
| Cleaner.DisableProgressStep | cleaner.go:101-119 | one loop turn skips the kept version, and reports (dry run) or disables (live) any other |
| Cleaner.DisableProgressStop | cleaner.go:109-112 | when the store refuses a version, exactly the selected names before it have been disabled, and it is the first refused one |
| Cleaner.DisableExceptTheLatestVersions | cleaner.go:59-120 | the new states, lines and outcome are those of `DisablePass`: a listing error changes nothing; a dry run reports each selected name and changes nothing; a live run disables the selected names up to the first refused one, reports them, and fails on that one; it passes only after a successful listing, and then a live run has disabled the whole selection; a failure is the refused listing or, in a live run only, a refused request; states only move forward |
| Cleaner.DestroyProgressStep | cleaner.go:130-153 | one loop turn reports (dry run) or destroys (live) the next DISABLED version |
| Cleaner.DestroyProgressStop | cleaner.go:144-147 | when the store refuses a version, exactly the DISABLED versions listed before it have been destroyed |
| Cleaner.DestroyDisabledVersions | cleaner.go:123-154 | the new states, lines and outcome are those of `DestroyPass`: a listing error changes nothing; a dry run reports every DISABLED version and changes nothing; a live run destroys every DISABLED version up to the first refused one, with no retention count, and fails on that one; it passes only after a successful listing, and then a live run has destroyed the whole listing; a failure is the refused listing or, in a live run only, a refused request; states only move forward |
| Cleaner.RunProgressStep | cleaner.go:182-188 | the disable pass and then the destroy pass for the next secret, both passing, extend the project sweep by that secret |
| Cleaner.RunProgressStop | cleaner.go:182-188 | when a pass for the next secret fails, the run's states, lines and outcome are those of the whole project's sweep |
| Cleaner.RunFinish | cleaner.go:182-188 | a run whose result is the project's sweep keeps the store well formed and moves states only forward; a pass is `SweepAll` and leaves every secret swept; a failure names a refused request |
| Cleaner.Run | cleaner.go:164-189 | an empty project fails before any store call; a listing failure changes nothing; once the secrets are listed, the new states, the printed lines and the outcome are exactly those of `SweepAllUntil` over the listed secrets, so a run passes exactly when that sweep does, which it does whenever none of its requests is refused (`SweepSpec.SweepAllUntilNothingRefused`); a dry run changes nothing; a successful run equals `SweepAll` over the listed secrets in order, and a live one leaves each of them with no DISABLED and at most one ENABLED version; a failure names a refused request: a version listing of a listed secret or, in a live run only, a refused disable or destroy; states only move forward |

## Left out

- The Secret Manager client, its context, `NewClient` and `Close` (cleaner.go:170-175) are replaced by the `Store` class. A client that cannot be created is not modelled.
- Pagination is not modelled: a listing is one snapshot of the whole sequence, taken when the call is made. An error on any page becomes an error of the listing call.
- Store errors are modelled as one set of refused requests per kind of call, plus unknown or destroyed versions. The sets are fixed for a run, so a request that failed once fails again. The model does not say why a real call fails.
- Command-line flags (cleaner.go:15-26) are replaced by method parameters. The `debug` output, `customHelp` and the operation responses are not modelled. The printed lines are a `seq<Report>`, one entry per disabled, destroyed or dry-run version.
- Process exit: `log.Fatalf` and `os.Exit(1)` end the run with a `Fail` outcome. The report holds the lines printed before the abort.
- The field copy on line 75 is not a separate loop, because the store's listing already yields `SecretVersion` records.
- Cleaner.DestroyDisabledVersions: requires that the secret's versions have distinct names. In the real store they do, because version names are fully qualified.
- Timestamps use the int64/int32 ranges only as types. The source does no arithmetic on them, so there is no overflow to model.
- Retention by keep-count is not modelled, because `cleaner.go` has none (see above).
