# vault-kv-cp in Dafny

vault-kv-cp copies every secret of one HashiCorp Vault KV version 2 mount into
another mount of another Vault server. The core of the Go program is in
`main.go`:

- `walkVaultPath` lists a node through the mount's `metadata` endpoint.
  - A node without a listing is a leaf, and it goes to `copySecrets`.
  - A node with a listing must carry an array of string `keys`. The walk
    recurses into each key in order, appending the key to both the source and
    the destination path with `path.Join`.
- `copySecrets` reads the latest version of a leaf and writes that version's
  data to the same relative path in the destination mount.
- A list, get or put error ends the program with `log.Fatalf`, and so does a
  listing with nil Data or without `keys`, a nil secret or a nil Put result.
  Non-array `keys` or a non-string key panics. A nil listing is not an error:
  it makes the node a leaf.
- A secret and a directory that share a name are both listed, as `d` and
  `d/`. `path.Join` turns either key into the child `d`, and `d` has a
  listing, so the directory is walked twice and the secret `d` is never
  copied. The model keeps this behaviour.
- `getVaultConfig` reads each server's address, token and CA certificate path
  from `SOURCE_`- or `DESTINATION_`-prefixed environment variables.

The model is split into these modules:

- `Wrappers`: `Option`.
- `GoPath`: Go's `path.Join` and `path.Clean`, worked out on `/`-separated
  segments, with the lemmas the walk needs about them.
- `Vault`: the two stores.
  - The source is a value that answers list and get requests; its failures are
    part of the value.
  - The destination is a class whose `secrets` map `Put` overwrites in place.
    Its `faults` say which addresses refuse a write.
  - `ListPath` gives the metadata list path.
- `Migrate`: the walk.
  - `CopySpec`, `WalkSpec`, `KeysFrom` and `KeyStep` are pure functions. They
    describe a run as a trace: the copies done, in order, and the fatal
    condition that stopped it.
  - The imperative methods `CopySecrets`, `WalkVaultPath` and `CopyMount` act
    on the destination object. Each is proved to return the trace's fatal
    condition, and to leave the destination as the old one with the trace's
    copies applied in order (`Apply`).
  - Lemmas state what a run copies, where it copies it, and when it stops;
    `Reaches` names the nodes a walk descends to, and a run that finishes has
    copied every leaf among them.
- `Config`: `getVaultConfig` and its two callers, over an environment given as
  a map.
- `Scenario`: a two-directory, two-leaf example tree migrated into an empty
  mount, both generically and with the names `app/`, `db/password` and
  `api/key`; and a store where a secret and a directory share a name.

## Model

| member | source | states |
|---|---|---|
| Migrate.WalkVaultPath | main.go:127-163 | the fatal condition returned and the destination afterwards are those of the walk of the node: list failure, nil Data, missing or non-array keys, or a non-string key stop it; a nil listing copies the node; otherwise every key is walked in order with path.Join on both paths, stopping at the first fatal condition |
| Migrate.CopySecrets | main.go:165-188 | the fatal condition and destination afterwards are those of copySecrets: a Get error or nil secret stops before any write, a Put error or nil result stops, and a successful Put stores the latest version's data at the destination path |
| Migrate.CopyMount | main.go:83 | the migration walks both mounts from the relative path "" and its outcome is the walk's trace applied to the destination; when it finishes, every leaf reached from the root holds the source's latest data at the same relative path of the destination mount; finished or not, every entry it adds or changes is such a leaf's, in the destination mount |
| Vault.Destination.Put | main.go:179-187 | a write to an address without a fault replaces the data there and changes nothing else; a write to a faulty address reports the fault (error or nil result) and changes nothing |
| Vault.ListPathLayout | main.go:130 | the list path of a node is the mount's segments, then "metadata", then the node's segments, with the mount's trailing and doubled slashes dropped; the root is listed at <mount>/metadata |
| GoPath.JoinNonEmpty | main.go:130 | path.Join ignores empty elements, joins the rest with "/" and cleans the result, and gives "" when every element is empty |
| GoPath.CleanJoined | main.go:159-160 | cleaning a relative path whose segments are proper names, possibly with doubled or trailing slashes, only drops the empty segments |
| GoPath.JoinChild | main.go:159-160 | joining a clean path with a key, which may end in the "/" Vault puts on directory keys, appends exactly one segment, the key's name |
| GoPath.JoinSlashInjective | main.go:159-160 | different non-empty lists of segments without slashes join to different strings (the keys d and d/ have the one segment d, so they reach the same child) |
| Migrate.ApplyLookup | main.go:179 | after a run, a key of the destination mount that some copy wrote holds the data of the last such copy, and every other key, in any mount, keeps its old value |
| Migrate.ApplyIdempotent | main.go:179 | applying the same copies a second time leaves the destination unchanged |
| Migrate.RerunIdempotent | main.go:83 | running the migration twice over the same stores leaves the destination as the first run left it |
| Migrate.WalkCopiesLeaves | main.go:137-141 | every copy a walk does is of a node without a listing, carries that node's latest data, goes to an address that accepts the write, and, when both relative paths start equal, is written at the relative path it was read from; and every copied node is reached from the node the walk starts at |
| Migrate.KeysCopyLeaves | main.go:158-162 | the same for the walk over a node's listed keys from index i on, every copied node being reached from that node |
| Migrate.KeyCopiesLeaves | main.go:159-161 | the same for the walk of one key, every copied node being reached, one level down, from the child path.Join gives for a string key |
| Migrate.KeysFromIncludes | main.go:158-162 | a walk over the keys of a listing that finishes walked each key from i on without a fatal condition, and every copy of such a key's walk is among its copies |
| Migrate.WalkCopiesReached | main.go:137-162 | a walk that finishes copies every leaf it reaches: the leaf has a latest version, and a copy of it from its relative path to the same relative path is among the run's copies |
| Migrate.LastWriteFound | main.go:179 | a destination path has a last write exactly when some copy writes it, and the last write's data is that of such a copy |
| Migrate.ReachedLeavesArrive | main.go:83 | after a migration that finishes, every leaf reached from the root of the source mount holds its latest data at the same relative path of the destination mount, whatever the destination held before |
| Migrate.WrittenAreReachedLeaves | main.go:83 | whether or not the migration finishes, every destination entry it adds or changes is in the destination mount, at the path of a leaf reached from the root, and holds that leaf's latest data |
| Migrate.WalkDepthIrrelevant | main.go:161 | a walk that does not reach its depth bound is the same walk under any larger bound |
| Migrate.KeysDepthIrrelevant | main.go:158-162 | the same, for the walk over the keys of a listing |
| Migrate.KeyDepthIrrelevant | main.go:159-161 | the same, for the walk of one key |
| Migrate.CopyOutcome | main.go:165-188 | copySecrets succeeds exactly when the source has a latest version and the destination accepts the write; then the destination holds that data at the destination path and nothing else changes, otherwise nothing changes |
| Migrate.BadNodeWritesNothing | main.go:132-158 | before any copy, a list failure ends the run with ListError carrying that error, nil Data with NoListingData, a listing without keys with NoKeys, and non-array keys with KeysNotArray, each naming the node's list path |
| Migrate.LeafIsCopied | main.go:137-141 | a node without a listing is walked as exactly one copySecrets, with no descent and at most one copy |
| Config.GetVaultConfig | main.go:106-125 | each field is the value of prefix + VAULT_ADDR, VAULT_TOKEN or VAULT_CACERT, and "" when that variable is unset or empty |
| Config.GetSourceVaultConfig | main.go:92-97 | the source configuration comes from SOURCE_VAULT_ADDR, SOURCE_VAULT_TOKEN and SOURCE_VAULT_CACERT |
| Config.GetDestinationVaultConfig | main.go:99-104 | the destination configuration comes from DESTINATION_VAULT_ADDR, DESTINATION_VAULT_TOKEN and DESTINATION_VAULT_CACERT |
| Config.ConfigReadsOwnVariables | main.go:106-125 | a configuration depends on its three variables and no others |
| Config.ServersConfiguredApart | main.go:92-104 | setting a DESTINATION_ variable never changes the source configuration, and setting a SOURCE_ variable never changes the destination configuration |
| Scenario.DirectoryPaths | main.go:159-160 | below directory key d + "/" the walk visits d, lists it at <mount>/metadata/d, and visits its leaf l at d/l, listed at <mount>/metadata/d/l |
| Scenario.ScenarioRun | main.go:127-188 | in the example tree the walk from the root copies the two leaves, in listing order and at the paths they were read from, and finishes |
| Scenario.ScenarioMigration | main.go:83 | migrating the example tree into an empty mount leaves exactly the two secrets with the source's data, for any depth bound of two or more |
| Scenario.SharedPaths | main.go:130 | in a store where a secret d and a directory d share a name, the root lists the keys d and d/, d is listed with its leaf l, and the secret d is stored at a path different from d/l |
| Scenario.SharedDirectoryRun | main.go:137-162 | the walk of the directory d copies its leaf d/l and goes no deeper |
| Scenario.SharedRootRun | main.go:158-162 | both root keys d and d/ join to the child d, so the walk from the root walks the directory d twice and copies d/l twice |
| Scenario.SharedNameRun | main.go:127-188 | the walk of that store finishes with the two copies of d/l, and the secret d, stored at the source, is absent from a destination that started empty |
| Scenario.AppMigration | main.go:83 | migrating app/ with db/password = {value: "x"} and api/key = {value: "y"} into an empty backup/ leaves exactly backup/db/password and backup/api/key with those data |

## Left out

- Client setup (main.go:19-56) is not modelled: the Vault clients, TLS with the CA certificate, and the tokens. The configuration values are computed, and nothing uses them.
- Argument handling (main.go:58-73) is not modelled. With fewer than two arguments the program prints its usage and exits with status 0; extra arguments are ignored. The model takes the two mount paths as parameters.
- Progress output to stdout (main.go:138, 143) is not modelled.
- The Vault API, HTTP and `context.TODO()` are not modelled. A store is its answers.
  - A source path the store has no answer for lists as nil and gets as a nil secret.
  - The Vault client's own handling of a missing secret is not part of this model; both an error and a nil secret can be expressed.
- `log.Fatalf` and the panics become a returned `Fatal` value that every caller passes up at once. Process exit, exit status and message text are not modelled.
  - The two "no data found" cases are kept apart as `NoListingData` and `NoKeys`.
- Secret data and listing values are opaque JSON. `Value` tells apart only strings, arrays and anything else.
- Migrate.WalkVaultPath: takes a depth bound the Go recursion does not have. A run that would go deeper ends with `DepthExceeded`. WalkDepthIrrelevant shows that every run that stays within the bound is unchanged by a larger bound. The Go program recurses without limit, and on a listing that leads back to itself it recurses until the stack is exhausted; the model does not capture that.
- A walk that tells a secret from a directory by the trailing "/" of its key is not part of this model. The model follows the program, which walks the directory twice and loses the secret when the two share a name (Scenario.SharedNameRun).
- Vault.Destination.Put: a destination failure is fixed per address. A failure that depends on timing, or on earlier writes, is not modelled. A Put that fails, with an error or a nil result, is assumed to have written nothing; the program cannot tell whether such a write was stored. Migrate.CopyOutcome's "otherwise nothing changes" and the destination Migrate.CopyMount gives after a stopped run rest on this assumption.
- GoPath.Clean: modelled on segments, following Go's documented rules. It is not proved to match Go's byte-by-byte implementation, which is not part of this model.
- Concurrency is not modelled: the program runs sequentially.
