# Certificate rotation for a Docker Swarm edge proxy, in Dafny

The controller in `cmd/controller/main.go` keeps TLS certificates for a Traefik service on a
Docker Swarm cluster current. Each cycle has four steps:

1. It decides whether a certificate is due for renewal.
2. It publishes the certificate and key as versioned swarm secrets, plus optionally one
   dynamic-configuration config `<prefix>_<label>.yml`. The secret names depend on `CERT_MODE`:
   - In san mode (the default, cmd/controller/main.go:60), one certificate covers every domain.
     Its secrets are `edge_tls_crt_<label>` and `edge_tls_key_<label>` (cmd/controller/main.go:160-161).
   - In split mode each domain gets its own certificate. Its secrets are
     `edge_tls_crt_<group>_<label>` and `edge_tls_key_<group>_<label>` (cmd/controller/main.go:119-120).
3. It rewrites the service spec so that it references the new generation.
4. It collects old generations, keeping `retain` of them per group.

This project models the bookkeeping of that cycle and proves its properties:

- **`GoStrings`** (`go_strings.dfy`) models the parts of Go's `strings` and `path/filepath` packages
  that the core relies on:
  - `HasPrefix`, `TrimPrefix`, `TrimSpace`, `Split`, `Join` and `SplitN(.., 2)`.
  - `filepath.Base` on slash paths.
  - Go's byte-wise string order `<` (`LexLess`).
  - Zero-padded decimal fields.
- **`Naming`** (`naming.dfy`) covers names. Its parts:
  - How a domain is turned into a group segment.
  - The 12-digit generation label of a clock minute.
  - The secret and config names.
  - `splitSecretName`, with its round trips.
- **`Renewal`** (`renewal.dfy`) models `isDueForRenew`, for a certificate file that is missing,
  not PEM, unparsable, or a certificate with an expiry instant.
- **`Rewrite`** (`rewrite.dfy`) models the edit `updateServiceSecretsAndConfigs` makes to the
  inspected service spec:
  - A `ServiceSpec` class whose secret list, config list, update policy and `ForceUpdate`
    counter the method updates in place.
  - The two append loops as methods, proved against the filter functions.
- **`Artifacts`** (`artifacts.dfy`) is the swarm's secret (or config) store: a `Store` class holding
  a list of artifacts with unique ids and names. It offers removal by id, creation by name, and
  `createOrReplace`.
- **`Retention`** (`retention.dfy`) models `gcOldSecrets` and `gcOldConfigs`:
  - The protection set.
  - The bucketing by `kind/group`.
  - `sort.Slice` by label, as an insertion sort on an array.
  - The removal loop.
  - The retention contract each bucket meets afterwards, with its consequences.
- **`Settings`** (`settings.dfy`) models `parseCSV`, `parseInt` (with `fmt.Sscanf("%d")` as Go
  scans it) and `buildLabelFilter`.

Two things are taken as inputs: the clock (`now`, the stamp of the cycle) and the ids the swarm
assigns to created artifacts.

Some behaviour of the code is easy to misread:

- **Renewal boundary.** A certificate expiring exactly `N` days from now is due iff `N < days`.
  The code compares with the strict `After`, so a certificate expiring exactly at the end of
  the window is not yet due (`Renewal.DueIffWithinWindow`).
- **Which references protect an artifact.** The garbage collector protects the references of the
  service value passed to it. That value is the spec listed before the update
  (cmd/controller/main.go:183 passes the `ServiceList` result). So the GC methods take the list
  of live references as a parameter; they do not read it from the rewritten spec. The just
  published generation survives anyway when `retain >= 1`, being the newest of its bucket
  (`Retention.NewestSurvives`).
- **Config prefixes.** The rewrite drops config references whose name starts with the prefix
  alone. The config collector considers only names that start with `prefix + "_"`.
- **Group segments are not unique per domain.** The replacer at cmd/controller/main.go:118
  maps `.` and `-` to the same character, and `*` to the text "star". So "a.b.com" and
  "a-b.com" get the same segment, and so do "*.x.com" and "star.x.com"
  (`Naming.DomainsCollide`). Names are collision-free per group segment
  (`Naming.GroupNameRoundTrip`), but not per domain. They are collision-free per domain only
  for domains without `*` and `-` (`Naming.SafeInjective`). In split mode two such domains in
  one cycle get the same secret names. The second `createOrReplaceSecret` then removes the
  secret created for the first (cmd/controller/main.go:121, 259-261), and the list of new
  references holds two references of one name.
- **Prefix trimming.** `splitSecretName` trims both kind prefixes, one after the other. So a
  certificate whose group itself begins with `edge_tls_key_` loses that part of its group
  (`Naming.KeyPrefixedGroupLosesPrefix`). A certificate of group `edge_tls_key` loses its whole
  group and parses as a san-mode certificate (`Naming.KeyPrefixGroupIsSan`).

## Model

| member | source | states |
|---|---|---|
| GoStrings.IsSpace | cmd/controller/main.go:319 | white space is the set `unicode.IsSpace` accepts: tab to carriage return, space, U+0085, U+00A0, U+1680, U+2000 to U+200A, U+2028, U+2029, U+202F, U+205F and U+3000 |
| GoStrings.HasPrefix | cmd/controller/main.go:337 | `strings.HasPrefix`: `p` is the first `|p|` characters of `s` (the same test at lines 284, 298, 355 and 380) |
| GoStrings.TrimPrefix | cmd/controller/main.go:338 | `strings.TrimPrefix`: when `s` starts with `p`, `s` is `p` followed by the result; otherwise the result is `s` |
| GoStrings.TrimPrefixOfConcat | cmd/controller/main.go:338 | `TrimPrefix(p + t, p)` gives back `t`, and `p + t` has prefix `p` |
| GoStrings.TrimSpace | cmd/controller/main.go:319 | `strings.TrimSpace` (also line 195): the result is an infix of the input that neither starts nor ends with white space |
| GoStrings.TrimSpaceOfTrimmed | cmd/controller/main.go:319 | `TrimSpace` leaves a string with no white space at either end unchanged |
| GoStrings.TrimSpaceDropsSpace | cmd/controller/main.go:319 | `TrimSpace(s)` is an infix of `s`, and everything before and after it is white space |
| GoStrings.TrimSpaceIdempotent | cmd/controller/main.go:319 | trimming twice is trimming once |
| GoStrings.Split | cmd/controller/main.go:339 | `strings.Split` on one character (also lines 194 and 318): at least one piece, and no piece holds the separator |
| GoStrings.Join | cmd/controller/main.go:340 | `strings.Join` with one character: the pieces with the separator between them; `JoinSplit` and `SplitJoin` show it inverts `Split` |
| GoStrings.SplitN2 | cmd/controller/main.go:197 | `SplitN(s, "=", 2)` has two parts iff `s` holds `=`; the two parts joined by `=` are `s` and the first has no `=`; otherwise the single part is `s` |
| GoStrings.SplitAround | cmd/controller/main.go:339 | splitting `a + sep + b` is splitting `a`, then splitting `b` |
| GoStrings.JoinSplit | cmd/controller/main.go:339-340 | joining the pieces of a split with the same separator gives back the string |
| GoStrings.SplitJoin | cmd/controller/main.go:339-340 | splitting a join gives back the pieces when none of them holds the separator |
| GoStrings.LexLessIrreflexive | cmd/controller/main.go:363 | the byte-wise string order `<` is irreflexive |
| GoStrings.LexLessTransitive | cmd/controller/main.go:363 | `<` on strings is transitive |
| GoStrings.LexLessTotal | cmd/controller/main.go:363 | two different strings are ordered one way or the other |
| GoStrings.LexLessAsymmetric | cmd/controller/main.go:363 | `<` on strings is asymmetric |
| GoStrings.LexLessConcat | cmd/controller/main.go:363 | with heads of equal length, comparing `a1 + b1` with `a2 + b2` compares the heads, then the tails |
| GoStrings.PadValue | cmd/controller/main.go:89 | a zero-padded field reads back as its number |
| GoStrings.PadOrder | cmd/controller/main.go:89 | zero-padded fields of one width compare as strings exactly as their numbers compare |
| GoStrings.Base | cmd/controller/main.go:301 | `filepath.Base` on a slash path: never empty, and holds `/` only when it is "/" itself (a path of slashes only) |
| GoStrings.BaseOfJoin | cmd/controller/main.go:301 | `filepath.Base(dir + "/" + name)` is `name` for a non-empty name without `/` |
| Naming.Safe | cmd/controller/main.go:118 | the group segment holds no `*` and no `.`, and holds `_` iff the domain does |
| Naming.SafeIdentity | cmd/controller/main.go:118 | a domain without `*` and `.` is its own group segment |
| Naming.SafeIdempotent | cmd/controller/main.go:118 | transliterating a group segment again changes nothing |
| Naming.SafeConcat | cmd/controller/main.go:118 | the replacer works character by character: the segment of `a + b` is the segment of `a` followed by that of `b` |
| Naming.SafeCollisions | cmd/controller/main.go:118 | a `.` and a `-` give the same segment, and so do a `*` and the text "star", whatever surrounds them |
| Naming.DomainsCollide | cmd/controller/main.go:118-120 | two different domains that differ by `.` against `-`, or by `*` against "star", mint the same split-mode secret name for every kind and label |
| Naming.SafeInjective | cmd/controller/main.go:118 | on domains with neither `*` nor `-`, two domains get the same segment iff they are equal |
| Naming.FormatStamp | cmd/controller/main.go:89 | the generation label of a minute is 12 decimal digits |
| Naming.FormatStampOrder | cmd/controller/main.go:89 | one minute is earlier than another iff its label sorts first as a string |
| Naming.FormatStampInjective | cmd/controller/main.go:89 | different minutes get different labels |
| Naming.StampHasNoUnderscore | cmd/controller/main.go:89 | a generation label never holds `_` |
| Naming.IsManaged | cmd/controller/main.go:355 | a name is managed iff it starts with `edge_tls_crt_` or `edge_tls_key_`, the test also made at line 284 |
| Naming.GroupSecretName | cmd/controller/main.go:119-120 | the split-mode name: kind prefix, group segment, `_`, label; `GroupNameRoundTrip` parses it back |
| Naming.SanSecretName | cmd/controller/main.go:160-161 | the san-mode name: kind prefix, then the label; `SanNameRoundTrip` parses it back |
| Naming.ConfigName | cmd/controller/main.go:95 | the config name `prefix_label.yml`, built the same way at line 171; `ConfigNameTs` reads its label back |
| Naming.ConfigTs | cmd/controller/main.go:382 | the collector's label of a config is what follows `prefix_`: prefix, `_` and label give back the name |
| Naming.ManagedNames | cmd/controller/main.go:118-120 | every minted secret name, and both placeholder names, lie in the managed namespace |
| Naming.SplitSecretName | cmd/controller/main.go:334-343 | names outside the namespace, and every failed parse, give `ok = false` with all fields empty; a success has a label of at least 8 characters without `_`, and kind "crt" exactly for the certificate prefix |
| Naming.SplitRest | cmd/controller/main.go:339-342 | a refused tail gives the empty result; an accepted one keeps the kind and has a label of at least 8 characters without `_` |
| Naming.ParseOfPrefixed | cmd/controller/main.go:337-338 | the parse of a name built with a kind prefix is the parse of its tail under that kind |
| Naming.RestAfterPrefixes | cmd/controller/main.go:337-338 | the two prefix trims leave the tail, and the prefix tests recognise the kind |
| Naming.SplitRestOfGroup | cmd/controller/main.go:339-341 | a tail `safe_label` parses to group `safe` and the label, or is refused when the label is shorter than 8 |
| Naming.GroupNameRoundTrip | cmd/controller/main.go:334-343 | a split-mode name parses back to its kind, group and label (label without `_`, at least 8 characters) |
| Naming.SanNameRoundTrip | cmd/controller/main.go:334-343 | a san-mode name parses to its kind, group "san" and its label |
| Naming.ShortLabelRejected | cmd/controller/main.go:341 | a label without `_` and shorter than 8 characters makes the split-mode name of every kind and group, and the san-mode name, unparsable |
| Naming.MintedNameRoundTrip | cmd/controller/main.go:118-120 | the names minted for a domain without `_` and a clock minute parse back to kind, group segment and label |
| Naming.KeyPrefixedGroupLosesPrefix | cmd/controller/main.go:338 | a certificate whose group begins with the key prefix parses with that part of the group trimmed away, or is unparsable when its label is shorter than 8 characters |
| Naming.KeyPrefixGroupIsSan | cmd/controller/main.go:338 | a certificate of group `edge_tls_key` loses its whole group to the trims and parses as a san-mode certificate, or is unparsable when its label is shorter than 8 characters |
| Naming.ConfigNameTs | cmd/controller/main.go:382 | a minted config name lies under `prefix_`, and the collector's label for it is the stamp plus ".yml" |
| Naming.ConfigTsOrder | cmd/controller/main.go:385 | the ".yml" suffix does not change the order of labels of one width |
| Renewal.IsDueForRenew | cmd/controller/main.go:244-255 | a missing file, a file without a PEM block and an unparsable certificate are always due |
| Renewal.DueIffWithinWindow | cmd/controller/main.go:253-254 | a certificate expiring exactly `n` days from now is due iff `n < days` |
| Renewal.DueIsMonotoneInTime | cmd/controller/main.go:254 | once due, a certificate stays due as the clock advances |
| Renewal.DueIsMonotoneInWindow | cmd/controller/main.go:253 | a wider window makes a certificate due no later |
| Renewal.ExpiredIsDue | cmd/controller/main.go:253-254 | an expired certificate is due for every window of zero or more days |
| Rewrite.GroupReferences | cmd/controller/main.go:125-128 | the split-mode pair: each reference names its secret and mounts it under that same name with mode 0400 |
| Rewrite.SanReferences | cmd/controller/main.go:166-169 | the san-mode pair: the versioned secrets mounted at the fixed names `edge_tls_crt` and `edge_tls_key` with mode 0400 |
| Rewrite.PublishedReferencesAreManaged | cmd/controller/main.go:125-128 | the references the controller publishes, in both modes, are all managed |
| Rewrite.DroppedSecret | cmd/controller/main.go:284-289 | the rewrite drops a reference iff its name is managed or is one of the two placeholders |
| Rewrite.PlaceholderTestIsRedundant | cmd/controller/main.go:284-289 | the rewrite's drop test is exactly "managed": the placeholder test never decides anything |
| Rewrite.ForeignSecrets | cmd/controller/main.go:283-291 | the kept references are exactly the unmanaged ones of the input, and no more of them |
| Rewrite.RewriteSecrets | cmd/controller/main.go:292 | the new secret list is the kept references followed by the new ones; `RewritePartition` states what that guarantees |
| Rewrite.ForeignSecretsAppend | cmd/controller/main.go:290 | the filter distributes over concatenation, so it keeps order |
| Rewrite.RewritePartition | cmd/controller/main.go:292 | after the rewrite the unmanaged references are the old ones in their order, and the managed ones are exactly the new ones |
| Rewrite.RewriteSecretsIdempotent | cmd/controller/main.go:282-292 | rewriting again with the same managed references changes nothing |
| Rewrite.OtherConfigs | cmd/controller/main.go:297-300 | the kept configs are exactly those of the input whose name does not start with the prefix |
| Rewrite.OtherConfigsIdempotent | cmd/controller/main.go:297-300 | filtering twice is filtering once |
| Rewrite.NewConfigReference | cmd/controller/main.go:301 | the added config reference mounts the new config under the base name of the target path with mode 0444 |
| Rewrite.RewriteConfigs | cmd/controller/main.go:296-302 | the new config list is the configs outside the prefix followed by the new reference |
| Rewrite.RewriteConfigsSpec | cmd/controller/main.go:295-303 | exactly one config under the prefix remains: the new one, last; the others are the old ones outside the prefix; a second rewrite changes nothing |
| Rewrite.StartFirstPolicy | cmd/controller/main.go:306-308 | the update order becomes start-first; an existing policy keeps its parallelism, a missing one gets the zero policy |
| Rewrite.KeepForeignSecrets | cmd/controller/main.go:282-291 | the first append loop computes the unmanaged references in their order |
| Rewrite.KeepOtherConfigs | cmd/controller/main.go:296-300 | the second append loop computes the configs outside the prefix in their order |
| Rewrite.UpdateServiceSecretsAndConfigs | cmd/controller/main.go:276-314 | the rewrite sets the secret list and (with configs enabled) the config list, leaves the configs alone otherwise, forces start-first, and adds 1 to `ForceUpdate` modulo 2^64 |
| Rewrite.ServiceSpec.constructor | cmd/controller/main.go:279-280 | the spec holds the inspected references, policy and counter |
| Artifacts.Without | cmd/controller/main.go:364-366 | removal keeps exactly the artifacts whose id is not removed |
| Artifacts.WithoutKeepsUnique | cmd/controller/main.go:365 | removal keeps ids and names unique |
| Artifacts.WithoutTwice | cmd/controller/main.go:364-366 | removing in two rounds removes the union |
| Artifacts.FindByName | cmd/controller/main.go:259-260 | the exact-name lookup finds an artifact of that name, or shows there is none |
| Artifacts.Store.Remove | cmd/controller/main.go:365 | the store loses exactly the artifact with that id |
| Artifacts.Store.Create | cmd/controller/main.go:263 | creation appends the artifact iff no artifact has that name; otherwise nothing changes |
| Artifacts.CreateOrReplace | cmd/controller/main.go:257-266 | afterwards exactly one artifact has the name, it is last and holds the data; before it are the old artifacts of every other name, in their old order |
| Settings.CsvItems | cmd/controller/main.go:316-323 | the trimmed, non-empty fields in order: no more items than fields, each non-empty without white space at either end |
| Settings.ParseCsv | cmd/controller/main.go:316-323 | the items are the trimmed, non-empty fields of the comma split, in order; none holds a comma |
| Settings.CsvRoundTrip | cmd/controller/main.go:316-323 | parsing the comma join of valid items gives back the items |
| Settings.Labels | cmd/controller/main.go:192-202 | the label filter is the set of trimmed items that hold `=` |
| Settings.BuildLabelFilter | cmd/controller/main.go:192-202 | the filter holds exactly the trimmed items that contain `=`; each is non-empty and holds no comma |
| Settings.LabelsOfItems | cmd/controller/main.go:192-202 | the labels of a comma-joined list of valid items are the items holding `=` |
| Settings.ParseInt | cmd/controller/main.go:325-330 | the empty string gives the default; input that scans to a positive value gives that value; every other result is the default; a positive default always gives a positive result |
| Settings.ScanDecimal | cmd/controller/main.go:328 | `fmt.Sscanf(s, "%d", &n)`: blanks other than newline are skipped, then an optional sign and at least one digit are read and the rest is ignored; a result always fits in 64 bits, and anything else is an error |
| Settings.ScanOfUnsigned | cmd/controller/main.go:328 | a string that starts with a digit scans to the value of its leading digits, if that fits in 64 bits |
| Settings.ParseIntOfDecimal | cmd/controller/main.go:328 | a positive 64-bit number followed by a non-digit (or nothing) parses to itself |
| Settings.ParseIntOfNonPositive | cmd/controller/main.go:328 | `-n` gives the default |
| Settings.ParseIntOfNonNumber | cmd/controller/main.go:328 | text that does not start with blank, sign or digit gives the default |
| Retention.RetainedOfSortedPrefix | cmd/controller/main.go:363-366 | removing the first `len - retain` of a label-sorted permutation of a bucket meets the retention contract |
| Retention.NewestSurvives | cmd/controller/main.go:362-366 | with `retain >= 1`, a member strictly newer than all others of its bucket is never removed |
| Retention.RetainKeepsNewest | cmd/controller/main.go:362-366 | with distinct labels, the removed members are exactly the `len - retain` oldest |
| Retention.SecretEntry | cmd/controller/main.go:354-360 | a secret is considered iff it is managed, unreferenced and parses; its entry carries the secret's id and name |
| Retention.ConfigEntry | cmd/controller/main.go:379-384 | a config is considered iff its name starts with `prefix_` and is unreferenced |
| Retention.SecretBucket | cmd/controller/main.go:353-361 | the candidates of one `kind/group` key, in listing order |
| Retention.SecretBucketMembers | cmd/controller/main.go:354-360 | a bucket holds exactly the candidates of the listed secrets whose key is its key |
| Retention.SecretBucketsDisjoint | cmd/controller/main.go:359-360 | two different buckets share no id |
| Retention.ConfigBucket | cmd/controller/main.go:378-384 | the config candidates, in listing order |
| Retention.ConfigBucketMembers | cmd/controller/main.go:379-384 | the config bucket holds exactly the candidates of the listed configs |
| Retention.SortByTs | cmd/controller/main.go:363 | the array ends sorted by label and is a permutation of what it held |
| Retention.SortedCopy | cmd/controller/main.go:363 | the sorted bucket is a label-sorted permutation of the bucket |
| Retention.RemoveOldest | cmd/controller/main.go:364-366 | the removal loop leaves the store less the removed ids, and the bucket meets the retention contract |
| Retention.ProtectedSecretNames | cmd/controller/main.go:347-350 | the protection set is the set of referenced secret names |
| Retention.ProtectedConfigNames | cmd/controller/main.go:373-374 | the protection set is the set of referenced config names |
| Retention.GroupSecrets | cmd/controller/main.go:353-361 | each key of the grouping maps to its bucket in listing order; absent keys have empty buckets |
| Retention.CollectConfigs | cmd/controller/main.go:378-384 | the collected configs are the config bucket in listing order |
| Retention.GcStep | cmd/controller/main.go:362-367 | one round of the group loop keeps the collected buckets within the contract and leaves the pending ones untouched |
| Retention.GcOldSecrets | cmd/controller/main.go:345-369 | only considered secrets are removed: referenced, foreign and unparsable ones all survive; every bucket meets the retention contract |
| Retention.GcOldConfigs | cmd/controller/main.go:371-388 | only unreferenced configs under `prefix_` are removed; their bucket meets the retention contract |

The retention contract (`Retention.Retained`) for a bucket `b` has two parts:

- Exactly `max(0, |b| - retain)` of its members are removed.
- No removed member has a later label than a member that stays.

`sort.Slice` is not stable, so among members with equal labels which one goes is left open.

## Left out

- **Docker, ACME and the controller loop.** The polling loop, `time.Sleep` and the Docker client calls are not modelled. The store is the `Artifacts.Store` class, and listing it is reading `items`. Also left out: `obtainOrRenew`, `legoUser` and key generation, and `env`, `mustEnv`, `loadEnvFiles` and `sha256Hex`. All of these are network, environment, filesystem or cryptographic code.
- **Errors from the store.** Failed list, create and remove calls are not modelled. The source ignores the errors of the remove calls. The model's removals always succeed.
- **Artifacts.CreateOrReplace**: the store is listed with Docker's `name` filter (cmd/controller/main.go:259, 269), which also matches names that merely start with `name`, in an unspecified order, and the code removes the first artifact listed. The model finds the artifact by exact name (`Artifacts.FindByName`). It therefore does not capture the outcome where an artifact whose name only extends `name` is removed instead, the artifact of that exact name stays, and the create then fails on the duplicate name.
- **Creating over a duplicate name.** `Artifacts.CreateOrReplace` requires a fresh id from the caller and removes the old artifact first, so its create always succeeds. The branch where creation fails on a duplicate name is stated on `Artifacts.Store.Create`.
- **Certificate parsing and the window.** PEM decoding and X.509 parsing are replaced by the `CertFile` datatype. Three things are left out with them:
  - The derivation of the window from `renewDaysStr + "24h"` through `time.ParseDuration`; the window is an integer input.
  - `AddDate`'s calendar arithmetic; time is whole seconds and a day is 86400 of them.
  - The reading of the clock.
- **Cached certificate reads and writes.** The cached certificate files, the YAML document of the dynamic configuration and the `strings.Builder` that writes it are left out. The document carries no invariant the core relies on.
- **Partial cycles.** The per-domain `continue` on a failed issuance or secret creation is not modelled. An empty `cfgID` after a failed config creation is not modelled either.
- **Stamp range.** `Naming.FormatStamp` covers years 0 to 9999 only. Go's formatting of other years is not modelled.
- **Names as code points.** Names are sequences of characters. Go compares and slices bytes, and the two agree on the ASCII names the controller mints.
- **Negative retain.** `Retention.GcOldSecrets` and `Retention.GcOldConfigs` take `retain` as a natural number. In Go a negative `retain` would index out of range. Every caller passes `parseInt(.., 2)`, which is positive (`Settings.ParseInt`).
- **Removed ids are ghost.** `Retention.GcOldSecrets` and `Retention.GcOldConfigs` return the removed ids as a ghost set, so their contracts state the outcome only relationally. Because the sort is unstable, which of several equal-label members is removed is not fixed.
- **Sorting a copy.** `Retention.SortedCopy` sorts a fresh array copied from the bucket and returns its contents. In Go, `sort.Slice` sorts the slice stored in the `groups` map in place. The model does not capture that aliasing.
- **Rewrite.StartFirstPolicy**: keeps only the `Parallelism` field of an existing `UpdateConfig`. `Delay`, `FailureAction`, `Monitor` and `MaxFailureRatio` are not modelled; the Go code leaves them unchanged as well.
- **File targets.** `Rewrite.FileTarget` holds the name and mode of a secret or config file target. The `UID` and `GID` fields are not modelled; the controller never sets them.
- **Missing container spec.** cmd/controller/main.go:280-283, 348 and 374 dereference `TaskTemplate.ContainerSpec` without a nil check, so a service without one makes the controller panic. The model's service spec always has a container spec, so that panic is not captured.
- **Map iteration order.** `Retention.GcOldSecrets` visits the groups in an arbitrary order, as Go's map iteration does. The contract holds for every order.
