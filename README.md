# A verified model of five small cores of aptos-core

This project models, in Dafny, five pieces of aptos-core and proves what
each of them promises.

- **The backup metadata cache** (`storage/backup/backup-cli/src/metadata/cache.rs`,
  module `MetadataCache`). `sync_and_load` lists the local cache directory and
  the remote metadata files. When the remote listing is empty it bootstraps the
  storage with an identity record and lists again. It then indexes the remote
  handles by their hash, deletes stale local files, and downloads each new file
  through a `.hash` temporary file and a rename. Finally it loads every cached
  file, new keys first, into one list of records. The directory and the storage
  are classes whose state is a map from name to content. Each I/O step that can
  fail is driven by a `Faults` record, so every `?` of the source is a path of
  the model.
- **The SDK builder's shared helpers** (`aptos-move/aptos-sdk-builder/src/common.rs`,
  module `SdkBuilder`). These cover:
  - quoting a Move type tag as a serde-reflection format;
  - mangling it into a name;
  - building the `ScriptCall` enum from a list of ABIs;
  - the helper-type set, the ABI filters, the doc-string clean-up and the
    external definitions.

  `type_not_allowed` panics in the source; here it is the `Err` case of a
  `Result` that carries the offending tag.
- **The faucet's Postgres IP rate limiter**
  (`crates/aptos-faucet/core/src/checkers/postgres_ratelimit.rs`, module
  `FaucetRatelimit`). The `request` table is a map from primary key to row,
  held by the checker object. It is shaped as in
  `crates/aptos-faucet/migration/src/m20220922_190315_create_requests_table.rs`.
  The model covers:
  - `check`: the rejection at the limit, and the insertion of an ongoing row;
  - `complete`: the completion time and the comma-joined hashes;
  - the old-row reaper with its consecutive-error counter;
  - the spawning of the reaper task;
  - the configuration defaults and the connection URL.
- **The transaction emitter's argument checks**
  (`crates/transaction-emitter-lib/src/args.rs`, module `EmitterArgs`):
  - exactly one coin-source key;
  - the target URL's default port;
  - the default transaction type and its command-line spelling.
- **The CLI end-to-end test helpers** (`crates/aptos/e2e/test_helpers.py` and
  `crates/aptos/e2e/test_results.py`, modules `E2eHelpers` and `E2eResults`):
  - the run helper's construction, full command line and `cwd` argument;
  - reading the account out of the CLI configuration;
  - the pass/fail recorder behind the `test_case` decorator.

Shared modules:

- `Wrappers`: the `Option`, `Result` and `Outcome` types.
- `Ints`: Rust's `u16`, `u64` and `i64`, and the casts between them.
- `Strings`: substring search, join and split, and decimal and hex digit strings.

Foreign code becomes a parameter:

- SipHash (`Hasher`);
- `serde_json` (`parse`);
- heck's `to_camel_case` (`camel`);
- the `url` crate's parser (`parseUrl`);
- BCS key loading (`loadKey`);
- `common.build_image_name` (`buildImageName`).

The clock, the uid and gid, and the lines of the configuration file are
parameters too.

Where a comment and the code disagree, the model follows the code. The comment
at `postgres_ratelimit.rs:187-189` says ongoing requests count towards the
limit. The query at line 193 keeps only rows with `completed_unixtime_secs > 0`,
which a NULL (ongoing) row never satisfies. `SuccessfulRequests` counts what
the query counts, and `PendingRowDoesNotCount` states the consequence: while
a request is ongoing, more requests from the same IP pass the check. This is
read from the code, not observed; which of the two behaviours is intended is
not settled by the source, so it is not listed as a finding.

## Model

| member | source | states |
|---|---|---|
| `Ints.AsI64` | crates/aptos-faucet/core/src/checkers/postgres_ratelimit.rs:128 | `u64 as i64` keeps values up to `i64::MAX`, makes larger ones negative, and agrees with the input modulo 2^64 |
| `Ints.AsU64` | crates/aptos-faucet/core/src/checkers/postgres_ratelimit.rs:257 | `i64 as u64` keeps non-negative values and agrees with the input modulo 2^64 |
| `Ints.AsI64RoundTrip` | crates/aptos-faucet/core/src/checkers/postgres_ratelimit.rs:221 | the two casts are inverse to each other, so `as i64` loses no information |
| `Ints.WrappingSub` | crates/aptos-faucet/core/src/checkers/postgres_ratelimit.rs:123 | `u64` subtraction is the true difference when it is non-negative and wraps by 2^64 otherwise |
| `Ints.TryI64` | crates/aptos-faucet/core/src/checkers/postgres_ratelimit.rs:214-216 | `i64::try_from` succeeds exactly on values up to `i64::MAX` and then keeps the value |
| `Strings.LowerHex` | storage/backup/backup-cli/src/metadata/cache.rs:216 | `{:x}` output is a non-empty string of lower-case hex digits without a leading zero |
| `Strings.LowerHexRoundTrip` | storage/backup/backup-cli/src/metadata/cache.rs:216 | reading a `{:x}` string back as hex gives the number |
| `Strings.Decimal` | crates/aptos-faucet/core/src/checkers/postgres_ratelimit.rs:74 | `{}` of a number is a non-empty string of decimal digits without a leading zero |
| `Strings.DecimalRoundTrip` | crates/aptos-faucet/core/src/checkers/postgres_ratelimit.rs:74 | reading a decimal string back gives the number |
| `Strings.SplitOnJoin` | crates/aptos-faucet/core/src/checkers/postgres_ratelimit.rs:243-248 | splitting a `join(",")` of comma-free parts at its commas gives the parts back |
| `Strings.RemoveChar` | crates/aptos/e2e/test_helpers.py:148 | `replace('"', "")` removes every quote and keeps every other character as often as it occurs (multiset), changing nothing when there is no quote |
| `Strings.RemoveCharSingle` | crates/aptos/e2e/test_helpers.py:148 | a one-character string loses its character exactly when it is `c` |
| `Strings.RemoveCharConcat` | crates/aptos/e2e/test_helpers.py:148 | the removal distributes over concatenation, so the characters other than `c` are kept in their original order |
| `MetadataCache.JoinPath` | storage/backup/backup-cli/src/metadata/cache.rs:145-146 | the joined path starts with the directory and ends with the name, with at most one separator between them |
| `MetadataCache.CacheDir` | storage/backup/backup-cli/src/metadata/cache.rs:59-64 | the cache directory is the `cache` sub-directory of the configured directory, or of the temporary directory when none is configured |
| `MetadataCache.FileHandleHash` | storage/backup/backup-cli/src/metadata/cache.rs:210-217 | a cache key is a lower-case hex string whose value is the handle's 64-bit hash |
| `MetadataCache.HashKeyIsExact` | storage/backup/backup-cli/src/metadata/cache.rs:210-217 | two handles share a cache key if and only if their 64-bit hashes are equal |
| `MetadataCache.TempNameIsNotAHash` | storage/backup/backup-cli/src/metadata/cache.rs:146 | the temporary name `.h` is never a cache key |
| `MetadataCache.IndexByHash` | storage/backup/backup-cli/src/metadata/cache.rs:116-120 | the index's keys are exactly the hashes of the listed handles, and each key maps to a listed handle with that hash |
| `MetadataCache.SplitHashes` | storage/backup/backup-cli/src/metadata/cache.rs:125-127 | stale, new and up-to-date keys are pairwise disjoint; new plus up-to-date is the remote set and stale plus up-to-date is the local set |
| `MetadataCache.LeftoverTempFileIsStale` | storage/backup/backup-cli/src/metadata/cache.rs:129-133 | a leftover temporary file is always stale, so it is deleted before a new download of the same hash creates it again |
| `MetadataCache.SplitOfSyncedIsEmpty` | storage/backup/backup-cli/src/metadata/cache.rs:125-127 | when the local keys equal the remote keys, nothing is stale and nothing is new |
| `MetadataCache.StripCr` | storage/backup/backup-cli/src/metadata/cache.rs:232-233 | the result is the line itself or the line minus one final `\r`, and a final `\r` is always removed |
| `MetadataCache.Lines` | storage/backup/backup-cli/src/metadata/cache.rs:232-233 | no line holds a line feed, and only the empty text has no lines |
| `MetadataCache.LinesOfTerminated` | storage/backup/backup-cli/src/metadata/cache.rs:232-235 | a file written one newline-terminated line per record splits back into exactly those lines |
| `MetadataCache.LinesOfCrlfTerminated` | storage/backup/backup-cli/src/metadata/cache.rs:232-235 | a file written with `\r\n` line ends splits into exactly its lines, the carriage returns dropped |
| `MetadataCache.ParseLines` | storage/backup/backup-cli/src/metadata/cache.rs:234-235 | succeeds exactly when every line parses, giving one record per line in order |
| `MetadataCache.LoadMetadataLines` | storage/backup/backup-cli/src/metadata/cache.rs:226-236 | a file loads exactly when every element of `lines()`, a blank one included, parses, giving one record per line in order |
| `MetadataCache.LoadFilesSucceeds` | storage/backup/backup-cli/src/metadata/cache.rs:184-198 | the load succeeds exactly when every named file can be read and parsed |
| `MetadataCache.LoadFilesConcat` | storage/backup/backup-cli/src/metadata/cache.rs:184-198 | loading `a + b` is loading `a` and then `b`, so file order and line order are kept |
| `MetadataCache.LoadFilesReadsOnlyOrder` | storage/backup/backup-cli/src/metadata/cache.rs:184-198 | the load depends only on the files it names |
| `MetadataCache.Enumerate` | storage/backup/backup-cli/src/metadata/cache.rs:125-127 | iterating a `HashSet` visits every element exactly once, in some order |
| `MetadataCache.EnumeratesEmpty` | storage/backup/backup-cli/src/metadata/cache.rs:114 | a listing is empty exactly when the set it lists is |
| `MetadataCache.LocalDirectory.constructor` | storage/backup/backup-cli/src/metadata/cache.rs:86-103 | the directory starts with the given entries |
| `MetadataCache.LocalDirectory.RemoveFile` | storage/backup/backup-cli/src/metadata/cache.rs:131 | removal succeeds exactly for an existing name when no fault is injected, and removes only that name |
| `MetadataCache.LocalDirectory.CreateNew` | storage/backup/backup-cli/src/metadata/cache.rs:153-158 | `create_new` fails on an existing name, and otherwise adds an empty file |
| `MetadataCache.LocalDirectory.Copy` | storage/backup/backup-cli/src/metadata/cache.rs:148-160 | a full copy stores the content; a failed copy leaves only a prefix in that file and nothing else changed |
| `MetadataCache.LocalDirectory.Rename` | storage/backup/backup-cli/src/metadata/cache.rs:163 | rename moves the content to the new name, replacing what was there |
| `MetadataCache.BackupStorage.constructor` | storage/backup/backup-cli/src/metadata/cache.rs:78 | the storage starts with the given files and no calls |
| `MetadataCache.BackupStorage.ListMetadataFiles` | storage/backup/backup-cli/src/metadata/cache.rs:106 | a listing names every remote file it shows exactly once (a lagging storage may not show yet the files it was told to hide), fails only on a fault, and the call is logged |
| `MetadataCache.BackupStorage.SaveMetadataLine` | storage/backup/backup-cli/src/metadata/cache.rs:70-72 | a save stores the line under the name, and the call is logged |
| `MetadataCache.InitializeIdentity` | storage/backup/backup-cli/src/metadata/cache.rs:68-73 | the identity record is written once; a failure is reported as `IdentityFailed` |
| `MetadataCache.RemoveStale` | storage/backup/backup-cli/src/metadata/cache.rs:129-133 | every stale file is deleted unless a removal fails; the error names a failing stale file, and only stale files are removed |
| `MetadataCache.DownloadOne` | storage/backup/backup-cli/src/metadata/cache.rs:143-171 | a download succeeds exactly when open, create, copy and rename all succeed, and then the key holds the remote content; a failure never creates the final name and leaves at most a partial temporary file |
| `MetadataCache.DownloadNew` | storage/backup/backup-cli/src/metadata/cache.rs:138-180 | every new key is downloaded exactly when every download succeeds; old entries are untouched and, success or failure, every entry is safe |
| `MetadataCache.SyncedKeys` | storage/backup/backup-cli/src/metadata/cache.rs:124-180 | a synced directory holds exactly the remote keys |
| `MetadataCache.SyncedIdempotent` | storage/backup/backup-cli/src/metadata/cache.rs:124-180 | a directory already holding exactly the remote keys is its own synced state |
| `MetadataCache.DownloadsInOrder` | storage/backup/backup-cli/src/metadata/cache.rs:138-180 | downloading every key of the set is the same as downloading every key of a listing of it |
| `MetadataCache.AllSafeFromPruned` | storage/backup/backup-cli/src/metadata/cache.rs:129-180 | entries safe with respect to the pruned directory are safe with respect to the original one |
| `MetadataCache.DownloadedIsSynced` | storage/backup/backup-cli/src/metadata/cache.rs:124-180 | the up-to-date entries plus every downloaded key make exactly the synced directory |
| `MetadataCache.Refresh` | storage/backup/backup-cli/src/metadata/cache.rs:124-180 | the directory becomes the synced one exactly when no removal and no download fails; otherwise every entry is still safe |
| `MetadataCache.IndexByHashOfListing` | storage/backup/backup-cli/src/metadata/cache.rs:116-120 | collecting a listing indexes exactly the hashes of the listed handles, each by a listed handle with that hash |
| `MetadataCache.LoadOrderOf` | storage/backup/backup-cli/src/metadata/cache.rs:181-183 | the new keys in some order followed by the up-to-date keys in some order form a loading order |
| `MetadataCache.NothingListed` | storage/backup/backup-cli/src/metadata/cache.rs:114-198 | with nothing listed, every cached key is stale, nothing is downloaded, the load order is empty, the synced directory is empty and the load yields no records |
| `MetadataCache.RefreshAndLoad` | storage/backup/backup-cli/src/metadata/cache.rs:124-198 | success exactly when no removal, download, read or parse fails; on success the directory is the synced one and the view is its load in the given order; every entry stays safe |
| `MetadataCache.SyncListed` | storage/backup/backup-cli/src/metadata/cache.rs:116-198 | the index covers every listed remote file; load order is the new keys, then the up-to-date keys; success exactly when no later step fails, and then the view is the load of the synced directory |
| `MetadataCache.ListedHandlesOfStorage` | storage/backup/backup-cli/src/metadata/cache.rs:105-115 | the sync works with every remote file, except after a lagging relisting, when it works with none |
| `MetadataCache.ListRemote` | storage/backup/backup-cli/src/metadata/cache.rs:105-115 | an empty storage gets exactly one identity write and one relisting; the storage calls and final files are as specified; a successful listing enumerates the listed handles, and it is empty exactly when the storage was empty and the relisting lags |
| `MetadataCache.SyncAndLoad` | storage/backup/backup-cli/src/metadata/cache.rs:76-204 | the bootstrap calls and files are as specified; success exactly when every step succeeds; on success the cache holds exactly the hashes of the listed files and the result is the load of the new then up-to-date keys; a relisting that is still empty deletes every cached file and returns an empty view when no removal fails; an in-step cache is unchanged; a final name never holds a partial download |
| `MetadataCache.LoadCached` | storage/backup/backup-cli/src/metadata/cache.rs:182-198 | the loop reads and parses the files in order and returns what the load specification gives, error included |
| `SdkBuilder.QuoteAcceptsAllowed` | aptos-move/aptos-sdk-builder/src/common.rs:25-50 | quoting succeeds exactly on the allowed argument types: primitives, `address`, byte strings, vectors of byte strings and vectors of primitives |
| `SdkBuilder.MangleAgreesWithQuote` | aptos-move/aptos-sdk-builder/src/common.rs:99-120 | mangling accepts exactly the tags quoting accepts, and both report the same offending tag |
| `SdkBuilder.MangleVector` | aptos-move/aptos-sdk-builder/src/common.rs:107-117 | vector names are `u8vector`, `vecbytes`, or `vec` followed by the element's name |
| `SdkBuilder.Demangle` | aptos-move/aptos-sdk-builder/src/common.rs:99-120 | a name read back is always an allowed type |
| `SdkBuilder.DemangleMangle` | aptos-move/aptos-sdk-builder/src/common.rs:99-120 | demangling a mangled name gives the type back |
| `SdkBuilder.MangleInjective` | aptos-move/aptos-sdk-builder/src/common.rs:99-120 | distinct accepted types get distinct names, so helper names never clash |
| `SdkBuilder.AsU32` | aptos-move/aptos-sdk-builder/src/common.rs:89 | `index as u32` is below 2^32 and keeps every index below 2^32 |
| `SdkBuilder.TypeParameterFields` | aptos-move/aptos-sdk-builder/src/common.rs:52-57 | one `TypeTag` field per type parameter, named after it, in order |
| `SdkBuilder.ParameterFieldsSpec` | aptos-move/aptos-sdk-builder/src/common.rs:59-64 | argument fields are built exactly when every argument type is allowed, one per argument, in order; otherwise the error is a refused argument's tag |
| `SdkBuilder.AbiFieldsSpec` | aptos-move/aptos-sdk-builder/src/common.rs:69-75 | a variant has the type-parameter fields, then the argument fields |
| `SdkBuilder.VariantsUpToOk` | aptos-move/aptos-sdk-builder/src/common.rs:66-97 | the first `i` variants are built exactly when each of those ABIs builds |
| `SdkBuilder.EnumVariantsOk` | aptos-move/aptos-sdk-builder/src/common.rs:66-97 | the enum is built exactly when every argument type of every ABI is allowed |
| `SdkBuilder.Indices` | aptos-move/aptos-sdk-builder/src/common.rs:68 | the set holds exactly the indices below `n` |
| `SdkBuilder.VariantsUpToStep` | aptos-move/aptos-sdk-builder/src/common.rs:88-94 | one more ABI adds its variant at its own index |
| `SdkBuilder.VariantsUpToKeys` | aptos-move/aptos-sdk-builder/src/common.rs:88-94 | the first `i` variants are keyed 0 to i-1, each with its ABI's variant |
| `SdkBuilder.VariantsUpToNext` | aptos-move/aptos-sdk-builder/src/common.rs:68-95 | the next ABI either fails the whole enum with its tag or adds its variant at `index as u32` |
| `SdkBuilder.EnumVariantsKeys` | aptos-move/aptos-sdk-builder/src/common.rs:88-96 | while indices fit in a `u32`, the enum has exactly one variant per ABI, keyed by position |
| `SdkBuilder.VariantsUpToErr` | aptos-move/aptos-sdk-builder/src/common.rs:66-97 | the first failing ABI fails the whole enum with its tag |
| `SdkBuilder.VariantFields` | aptos-move/aptos-sdk-builder/src/common.rs:69-75 | the two field loops build exactly the variant's fields, or fail at the first refused argument |
| `SdkBuilder.MakeAbiEnumContainer` | aptos-move/aptos-sdk-builder/src/common.rs:66-97 | the loop builds exactly the specified enum, or the error of the first failing ABI |
| `SdkBuilder.ParameterFieldsPrefixErr` | aptos-move/aptos-sdk-builder/src/common.rs:73-75 | a refused argument fails the whole argument list with its tag |
| `SdkBuilder.GetRequiredHelperTypes` | aptos-move/aptos-sdk-builder/src/common.rs:138-147 | the set holds exactly the argument types of all ABIs; type parameters are not included |
| `SdkBuilder.ArgumentTypesSnoc` | aptos-move/aptos-sdk-builder/src/common.rs:140-145 | one more ABI adds exactly its argument types |
| `SdkBuilder.HelperTypesAllowed` | aptos-move/aptos-sdk-builder/src/common.rs:138-147 | when the enum builds, every required helper type is allowed and has a mangled name |
| `SdkBuilder.FiltersSelect` | aptos-move/aptos-sdk-builder/src/common.rs:149-174 | each filter keeps exactly the ABIs of its variant |
| `SdkBuilder.FilterTransactionScriptsConcat` | aptos-move/aptos-sdk-builder/src/common.rs:149-154 | filtering keeps the input order |
| `SdkBuilder.TransactionScriptAbisConcat` | aptos-move/aptos-sdk-builder/src/common.rs:156-164 | the transaction-script list keeps the input order |
| `SdkBuilder.ScriptFunctionAbisConcat` | aptos-move/aptos-sdk-builder/src/common.rs:166-174 | the script-function list keeps the input order |
| `SdkBuilder.FiltersPartition` | aptos-move/aptos-sdk-builder/src/common.rs:149-174 | every ABI lands in exactly one typed list, and the untyped filter is the transaction-script list wrapped back |
| `SdkBuilder.Wrap` | aptos-move/aptos-sdk-builder/src/common.rs:149-154 | each transaction script, at its position, as a `ScriptABI` |
| `SdkBuilder.WrapConcat` | aptos-move/aptos-sdk-builder/src/common.rs:149-154 | wrapping keeps concatenation |
| `SdkBuilder.DropIndent` | aptos-move/aptos-sdk-builder/src/common.rs:22 | replacing `"\n "` by `"\n"` never lengthens the text |
| `SdkBuilder.DropIndentFirstMatch` | aptos-move/aptos-sdk-builder/src/common.rs:22 | the first `"\n "` becomes `"\n"`, the text before it is kept and the search resumes after it; with `DropIndentWithoutMatch` this fixes the replacement on every text |
| `SdkBuilder.DropIndentRemovesOnlySpaces` | aptos-move/aptos-sdk-builder/src/common.rs:22 | the replacement removes spaces only, and every other character stays in order |
| `SdkBuilder.DropIndentWithoutMatch` | aptos-move/aptos-sdk-builder/src/common.rs:22 | a text without `"\n "` is unchanged |
| `SdkBuilder.TrimStartIndex` | aptos-move/aptos-sdk-builder/src/common.rs:22 | the first non-whitespace position, with only whitespace before it |
| `SdkBuilder.TrimEndIndex` | aptos-move/aptos-sdk-builder/src/common.rs:22 | the end of the last non-whitespace character, with only whitespace after it |
| `SdkBuilder.TrimShape` | aptos-move/aptos-sdk-builder/src/common.rs:22 | `trim` returns a slice with only whitespace around it that neither starts nor ends with whitespace |
| `SdkBuilder.TrimIdempotent` | aptos-move/aptos-sdk-builder/src/common.rs:22 | trimming twice is trimming once |
| `SdkBuilder.PrepareDocString` | aptos-move/aptos-sdk-builder/src/common.rs:21-23 | the cleaned doc string is the indent-dropped text with its leading and trailing whitespace cut off: a slice of it with only whitespace outside, that neither starts nor ends with whitespace |
| `SdkBuilder.PrepareDocStringClean` | aptos-move/aptos-sdk-builder/src/common.rs:21-23 | an already clean doc string is kept as it is |
| `SdkBuilder.GetExternalDefinitions` | aptos-move/aptos-sdk-builder/src/common.rs:122-136 | the one module supplies `AccountAddress` and `TypeTag`, among others |
| `SdkBuilder.QuotedTypeNames` | aptos-move/aptos-sdk-builder/src/common.rs:25-50 | a quoted argument type refers to no type name but `AccountAddress` |
| `SdkBuilder.FieldTypesAreExternal` | aptos-move/aptos-sdk-builder/src/common.rs:122-136 | every type name a variant field uses is an external definition |
| `FaucetRatelimit.ConfigWithDefaults` | crates/aptos-faucet/core/src/checkers/postgres_ratelimit.rs:26-66 | an omitted port becomes 5432, an omitted reaper interval becomes 300, and given values are kept |
| `FaucetRatelimit.BuildDatabaseUrl` | crates/aptos-faucet/core/src/checkers/postgres_ratelimit.rs:68-77 | the URL starts with `postgres://` |
| `FaucetRatelimit.SplitFirst` | crates/aptos-faucet/core/src/checkers/postgres_ratelimit.rs:70 | a text splits at its first separator |
| `FaucetRatelimit.SplitFirstOf` | crates/aptos-faucet/core/src/checkers/postgres_ratelimit.rs:70 | a separator-free head followed by the separator splits back into its two parts |
| `FaucetRatelimit.ParseAfterSchemeOf` | crates/aptos-faucet/core/src/checkers/postgres_ratelimit.rs:70-75 | the part after the scheme reads back into its five components |
| `FaucetRatelimit.NoSlashInDecimal` | crates/aptos-faucet/core/src/checkers/postgres_ratelimit.rs:74 | a decimal port never contains `/` |
| `FaucetRatelimit.DatabaseUrlRoundTrip` | crates/aptos-faucet/core/src/checkers/postgres_ratelimit.rs:68-77 | user, password, address, port and name are read back from the URL; a missing password reads back as the empty one |
| `FaucetRatelimit.SuccessfulKeys` | crates/aptos-faucet/core/src/checkers/postgres_ratelimit.rs:190-193 | the keys of the IP's rows whose completion time is set and positive |
| `FaucetRatelimit.LimitedCount` | crates/aptos-faucet/core/src/checkers/postgres_ratelimit.rs:190-202 | the limited query returns at most `limit` rows, and reaches `limit` exactly when the IP has at least `limit` successful requests |
| `FaucetRatelimit.LimitReached` | crates/aptos-faucet/core/src/checkers/postgres_ratelimit.rs:201-209 | the rejection carries `IpUsageLimitExhausted`; its text starts with `IP ` followed by the IP, and ends with the limit's decimal digits |
| `FaucetRatelimit.LimitReachedNamesLimit` | crates/aptos-faucet/core/src/checkers/postgres_ratelimit.rs:204-207 | the digits that end the rejection text read back as the limit |
| `FaucetRatelimit.RowKey` | crates/aptos-faucet/core/src/checkers/postgres_ratelimit.rs:218-221 | the row key is the IP and the receive time, exact while the time fits in an `i64` |
| `FaucetRatelimit.CompletionSecs` | crates/aptos-faucet/core/src/checkers/postgres_ratelimit.rs:238-241 | a 500 response records 0; otherwise the clock is recorded, cast to `i64` |
| `FaucetRatelimit.CompletionCounts` | crates/aptos-faucet/core/src/checkers/postgres_ratelimit.rs:238-241 | a completed request counts exactly when the response was not a 500 and the clock reads a positive `i64` |
| `FaucetRatelimit.Completed` | crates/aptos-faucet/core/src/checkers/postgres_ratelimit.rs:254-261 | only the completion time and the hashes change; address and amount are kept |
| `FaucetRatelimit.CompletedHashes` | crates/aptos-faucet/core/src/checkers/postgres_ratelimit.rs:243-248 | the stored hash column splits back into the given hashes |
| `FaucetRatelimit.Reaped` | crates/aptos-faucet/core/src/checkers/postgres_ratelimit.rs:125-129 | a reaper pass keeps exactly the rows inserted at or after the cutoff, unchanged |
| `FaucetRatelimit.Cutoff` | crates/aptos-faucet/core/src/checkers/postgres_ratelimit.rs:122-128 | the cutoff is the true `now - ttl` whenever that fits in an `i64`, negative included |
| `FaucetRatelimit.LongTtlReapsNothing` | crates/aptos-faucet/core/src/checkers/postgres_ratelimit.rs:122-128 | assuming the subtraction wraps (no overflow checks), a TTL longer than the clock reading deletes no row inserted after the epoch |
| `FaucetRatelimit.PendingRowDoesNotCount` | crates/aptos-faucet/core/src/checkers/postgres_ratelimit.rs:187-193 | the ongoing row `check` inserts does not count towards any IP's limit |
| `FaucetRatelimit.SuccessfulCompletionCounts` | crates/aptos-faucet/core/src/checkers/postgres_ratelimit.rs:254-261 | a successful completion adds one to its own IP's count and changes no other IP's count |
| `FaucetRatelimit.ReapedCountsNoMore` | crates/aptos-faucet/core/src/checkers/postgres_ratelimit.rs:125-129 | reaping never raises a count |
| `FaucetRatelimit.ReapedMonotone` | crates/aptos-faucet/core/src/checkers/postgres_ratelimit.rs:125-129 | a later cutoff subsumes an earlier one, and reaping is idempotent |
| `FaucetRatelimit.NextErrorCount` | crates/aptos-faucet/core/src/checkers/postgres_ratelimit.rs:134-151 | a success resets the counter and a failure raises it by one |
| `FaucetRatelimit.ErrorCount` | crates/aptos-faucet/core/src/checkers/postgres_ratelimit.rs:120-151 | the counter equals the length of the run of failures since the last success |
| `FaucetRatelimit.GivesUpAfterSixFailures` | crates/aptos-faucet/core/src/checkers/postgres_ratelimit.rs:142-146 | the counter passes the limit exactly after six failures in a row |
| `FaucetRatelimit.ReapAllKeeps` | crates/aptos-faucet/core/src/checkers/postgres_ratelimit.rs:121-133 | a row survives the reaper exactly when no successful pass had a later cutoff, and then it is unchanged |
| `FaucetRatelimit.PassStep` | crates/aptos-faucet/core/src/checkers/postgres_ratelimit.rs:121-152 | one more pass updates the counter and the table by that pass alone |
| `FaucetRatelimit.KeptGoingStep` | crates/aptos-faucet/core/src/checkers/postgres_ratelimit.rs:142-146 | a pass within the limit keeps the reaper going |
| `FaucetRatelimit.PostgresRatelimitChecker.constructor` | crates/aptos-faucet/core/src/checkers/postgres_ratelimit.rs:99-113 | the checker holds its configuration and the table |
| `FaucetRatelimit.PostgresRatelimitChecker.Check` | crates/aptos-faucet/core/src/checkers/postgres_ratelimit.rs:182-234 | a failed query is a storage error; an IP at the limit is rejected; otherwise a dry run accepts, an amount over `i64::MAX` is invalid, a failed or duplicate insert is a storage error, and success inserts exactly one ongoing row |
| `FaucetRatelimit.PostgresRatelimitChecker.Complete` | crates/aptos-faucet/core/src/checkers/postgres_ratelimit.rs:236-272 | the request's row is updated exactly when the update succeeds and the row exists; every other row is untouched |
| `FaucetRatelimit.PostgresRatelimitChecker.ReapOldRows` | crates/aptos-faucet/core/src/checkers/postgres_ratelimit.rs:122-141 | a successful delete leaves exactly the reaped table; a failed one changes nothing |
| `FaucetRatelimit.PostgresRatelimitChecker.ClearOldRows` | crates/aptos-faucet/core/src/checkers/postgres_ratelimit.rs:118-159 | a failed connection changes nothing; the reaper gives up at the first pass that makes six failures in a row, and never earlier; the table is the schedule's successful reaps up to that point |
| `FaucetRatelimit.PostgresRatelimitChecker.SpawnPeriodicTasks` | crates/aptos-faucet/core/src/checkers/postgres_ratelimit.rs:274-278 | the reaper is added exactly when a row TTL is configured |
| `EmitterArgs.SourcesGiven` | crates/transaction-emitter-lib/src/args.rs:17-31 | at most four sources, and none exactly when all are absent |
| `EmitterArgs.GetPrivateKey` | crates/transaction-emitter-lib/src/args.rs:34-55 | fails with "exactly one" if and only if not exactly one source is given; the flag is set exactly for a mint source; loading fails only for a key file |
| `EmitterArgs.OnlySource` | crates/transaction-emitter-lib/src/args.rs:17-31 | a single source gives arguments with exactly one source |
| `EmitterArgs.ExactlyOneSource` | crates/transaction-emitter-lib/src/args.rs:34-54 | exactly one source is given if and only if the arguments are those of a single source |
| `EmitterArgs.GetPrivateKeyOfSource` | crates/transaction-emitter-lib/src/args.rs:41-52 | a single key is returned as it is and a file is loaded, each with its mint flag |
| `EmitterArgs.KnownDefaultPort` | crates/transaction-emitter-lib/src/args.rs:180 | exactly http, https, ws, wss and ftp have a known default port |
| `EmitterArgs.PortOrKnownDefault` | crates/transaction-emitter-lib/src/args.rs:180 | the explicit port, or else the scheme's default |
| `EmitterArgs.SetPort` | crates/transaction-emitter-lib/src/args.rs:181 | setting a port fails exactly on a URL without a host, with an empty host, or with the `file` scheme; otherwise the URL's effective port is the given one and nothing else changes |
| `EmitterArgs.WithDefaultPort` | crates/transaction-emitter-lib/src/args.rs:180-186 | a URL with a usable port is kept; otherwise it gets 8080, or fails when the port cannot be set; a result always has a port |
| `EmitterArgs.ParseTarget` | crates/transaction-emitter-lib/src/args.rs:170-188 | an unparsable target and an empty scheme are errors; a result has a scheme and a port, and is the parsed URL or that URL with port 8080 |
| `EmitterArgs.WithDefaultPortIdempotent` | crates/transaction-emitter-lib/src/args.rs:170-188 | a target that went through the port step once comes out unchanged |
| `Strings.LowerAsciiChar` | crates/transaction-emitter-lib/src/args.rs:127 | `A`-`Z` map to `a`-`z` in order, and every other character is kept |
| `Strings.LowerAscii` | crates/transaction-emitter-lib/src/args.rs:127 | the text of the same length with each character lower-cased |
| `Strings.LowerAsciiIdempotent` | crates/transaction-emitter-lib/src/args.rs:127 | lower-casing twice is lower-casing once |
| `Strings.LowerAsciiOfLower` | crates/transaction-emitter-lib/src/args.rs:127 | a text without an upper-case ASCII letter is its own lower case |
| `EmitterArgs.FromCliName` | crates/transaction-emitter-lib/src/args.rs:122-128 | ignoring ASCII case, a spelling is read as the type with that spelling, and refused exactly when no type has it |
| `EmitterArgs.CliNameIsLowerCase` | crates/transaction-emitter-lib/src/args.rs:76-86 | every spelling is already in lower case |
| `EmitterArgs.FromCliNameIgnoresCase` | crates/transaction-emitter-lib/src/args.rs:122-128 | any spelling whose lower case is a type's spelling, such as `COIN-TRANSFER`, reads as that type |
| `EmitterArgs.CliNameRoundTrip` | crates/transaction-emitter-lib/src/args.rs:76-86 | every transaction type is read back from its kebab-case spelling, so the spellings are distinct |
| `EmitterArgs.DefaultsAgree` | crates/transaction-emitter-lib/src/args.rs:122-129 | the command line's default `coin-transfer` is the type of the `Default` impl at lines 88-92 |
| `E2eHelpers.NewRunHelper` | crates/aptos/e2e/test_helpers.py:30-41 | both, or neither, of an image tag and a CLI path is an error; otherwise the helper keeps its arguments and exactly one of the two is set |
| `E2eHelpers.DockerPrefix` | crates/aptos/e2e/test_helpers.py:55-70 | the `docker run` prefix has thirteen words, and runs as `uid:gid`, removed on exit, on the host network, interactively |
| `E2eHelpers.FullCommand` | crates/aptos/e2e/test_helpers.py:53-73 | with an image: the docker prefix (`--user uid:gid --rm --network host -i`, host directory mounted at `/tmp`, image name last), then the command unchanged; with a local CLI: the CLI path replaces the command's first word |
| `E2eHelpers.RunKwargs` | crates/aptos/e2e/test_helpers.py:86-88 | a local CLI runs with `cwd` set to the host working directory; every other argument is kept |
| `E2eHelpers.SecondPart` | crates/aptos/e2e/test_helpers.py:148 | `split(key)[1]` is the text between the first occurrence of the key and the next one, or the end of the line |
| `E2eHelpers.FieldValue` | crates/aptos/e2e/test_helpers.py:148-152 | a field value holds no quote and holds every other character of the line's second part as often as it occurs there |
| `E2eHelpers.LastLineWith` | crates/aptos/e2e/test_helpers.py:146-152 | the last line that holds the key, or none when no line does |
| `E2eHelpers.LastValueStep` | crates/aptos/e2e/test_helpers.py:146-152 | a later line holding the key overrides the earlier value |
| `E2eHelpers.GetAccountInfo` | crates/aptos/e2e/test_helpers.py:138-159 | the loop returns the last value of each key; it fails exactly when one of the three is missing or empty |
| `E2eResults.TestResults.constructor` | crates/aptos/e2e/test_results.py:10-13 | both lists start empty |
| `E2eResults.WrappedTest.constructor` | crates/aptos/e2e/test_results.py:19-21 | the wrapper records into its decorator's results |
| `E2eResults.WrappedTest.Call` | crates/aptos/e2e/test_results.py:21-28 | a return is recorded as a pass and returned; an `Exception` is recorded with the test's name and swallowed; any other exception goes through unrecorded; each call records at most one entry |
| `E2eResults.TestCaseDecorator.constructor` | crates/aptos/e2e/test_results.py:18 | the decorator is bound to one results object |
| `E2eResults.TestCaseDecorator.Decorate` | crates/aptos/e2e/test_results.py:19-30 | a new wrapper, with the test's name, recording into the same results |
| `E2eResults.ModuleGlobals` | crates/aptos/e2e/test_results.py:41-44 | one empty results object, and a decorator bound to it |

## Left out

- Concurrency in `cache.rs`: the downloads at lines 174-180 run up to
  `concurrent_downloads` at a time. The model runs them one after the other and
  stops at the first failure. The property that a final name never holds a
  partial download (`AllSafe`) is proved per download, so it does not depend on
  this order.
- Real file-system and network I/O, the `TempPath` global, the metrics
  counters and logging: directory and storage state are maps, and the failure
  of each step is a `Faults` flag. Failures of `create_dir_all`, `read_dir` and
  `into_string` (lines 83-103) are one flag, `listLocal`.
- `MetadataCache.BackupStorage.ListMetadataFiles`: a storage whose listings lag
  behind its writes is modelled only for the relisting after the bootstrap,
  which may not show the identity record yet (the `relistLags` flag); every
  other listing shows every stored file. A lagging first listing would make
  the bootstrap write an identity record into a storage that already has
  files; the model does not cover that case.
- `MetadataCache.SyncAndLoad`: it returns the list of records, not a
  `MetadataView`. The view's own indexing (`metadata_vec.into()`) is not part
  of this model.
- `Metadata::new_random_identity` and its text encoding are an input
  (`IdentityRecord`). SipHash is an arbitrary `Hasher` function, and
  `serde_json` is an arbitrary `parse` function.
- `FaucetRatelimit`: the connection options, `build_database_connection`,
  `PostgresRatelimitChecker::new` with its migrations, and `cost()` are not
  modelled. The constructor takes the table directly. The migration creates
  the schema that `Key` and `Row` describe.
- `FaucetRatelimit.PostgresRatelimitChecker.ClearOldRows`: the endless loop and
  its `sleep` are modelled over a finite schedule of passes, each with its
  clock reading and whether its delete fails. `Running` means the schedule is used up
  first. `current_time - row_ttl_secs` (line 123) is assumed to wrap, as it
  does in a build without overflow checks; none of the modelled files sets
  the build profile. With overflow checks a TTL longer than the clock
  reading panics the reaper instead, and `LongTtlReapsNothing` then states
  a path that does not occur.
- `FaucetRatelimit.PostgresRatelimitChecker.Complete`: a missing row is
  reported as a storage error. The model takes the ORM's update-one to fail
  when no row matches. The update finds the row by its primary key (IP and
  insertion time); the account-address column is not matched.
- The storage-error texts of a failed insert and a failed completion
  (`postgres_ratelimit.rs:227` and `:266`) and the `rows_affected` log line
  are not modelled; errors carry only their code. The rejection text at the
  limit is modelled (`LimitReached`).
- `EmitterArgs`: the `url` crate's parser and the BCS key loader are
  parameters. Only the URL's scheme, host, port and path are modelled. The
  other emitter arguments (`ClusterArgs`, `EmitArgs`) are plain clap fields
  with no logic beyond the defaults listed above.
- `E2eHelpers`: `subprocess.run`, writing the `.command`, `.stdout`, `.stderr`
  and `.exception` files, `write_subprocess_out`, `prepare`, the REST client,
  and reading the configuration file and its `splitlines()` are left out. The
  lines are an input, and `common.build_image_name` is a parameter (the
  `common` module is not part of this model).
- `E2eResults`: Python's `functools.wraps` metadata copying is not modelled.
  A test function is its name and what calling it does.
- `SdkBuilder.EnumVariantsKeys`: it is stated for at most 2^32 ABIs. With
  more, `index as u32` wraps and later variants overwrite earlier ones. The
  function `VariantsUpTo` models that wrap, but no property of it is stated.
- `SdkBuilder`: heck's `to_camel_case` is a parameter. `Display` of a type tag,
  used in the panic message, is not modelled.
