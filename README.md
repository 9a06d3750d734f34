# OCS snapstore credential chain, in Dafny

This project models how the OCS (S3-compatible) snapstore of etcd-backup-restore
finds its credentials. The code is `pkg/snapstore/ocs_s3_snapstore.go`. It covers:

- the precedence resolver `getOCSAuthOptions`. It tries three sources in order:
  the JSON file named by `<prefix>OPENSHIFT_APPLICATION_CREDENTIALS_JSON`, then the
  directory named by `<prefix>OPENSHIFT_APPLICATION_CREDENTIALS`, then the legacy
  `OCS_*` variables;
- the directory reader `readOCSCredentialFromDir`, a loop over the directory
  listing that fills the `ocsAuthOptions` record field by field;
- the JSON reader `readOCSCredentialsJSON` / `ocsCredentialsFromJSON`;
- the legacy environment reader `readOcsCredentialFromEnv`;
- the completeness check `isOCSConfigEmpty`;
- the adapter `ocsAuthOptionsToGenericS3`;
- the fingerprint input of `getOCSHash`, and `OCSSnapStoreHash`.

Files:

- `wrappers.dfy`: `Option` and `Result`.
- `host.dfy` (module `Host`): the host capabilities the chain reads through.
  - The environment is a `map<string, string>`. A name missing from the map is
    unset. A name mapped to `""` is set but empty. These are two different states.
  - The filesystem is a map from each listable directory to its entry names, in
    listing order, plus a map from each readable path to its contents.
  - `LookupEnv`, `Getenv`, `ReadDir` and `ReadFile` stand for `os.LookupEnv`,
    `os.Getenv`, `os.ReadDir` and `os.ReadFile`.
  - `ParseBool` stands for `strconv.ParseBool`. It accepts exactly the literals
    `1 t T TRUE true True` and `0 f F FALSE false False`.
  - `GetEnvVarOrError` and `GetEnvVarToBool` are the package helpers. They are
    defined in a file that is not part of this model. They are written here as
    assumptions. `GetEnvVarOrError` fails exactly when the variable is unset or
    empty, and the error names the variable. `GetEnvVarToBool` is
    `GetEnvVarOrError` followed by `ParseBool`.
- `ocs_s3_snapstore.dfy` (module `OcsSnapstore`): the record and the chain.
  - The directory and environment readers and the resolver are imperative
    methods, as in the source: `ReadOcsCredentialFromDir` (a `while` loop over
    the listing, with early returns), `ReadOcsCredentialFromEnv` and the resolver
    `GetOcsAuthOptions`. Each is proved equal to a specification function:
    `CredentialsFromDir`, `CredentialsFromEnv` and `ResolvedCredentials`.
  - `CredentialsFromEnv` and `ResolvedCredentials` carry the source's promises in
    their own `ensures`. For the directory reader, `ApplyEntry` states one loop
    step in full, but the promises about the whole listing (the contents of each
    field, and which error a failed read returns) are lemmas in `OcsProperties`:
    `ScanCharacterized`, `ScanStopsAtFirstFailure` and `DirReaderCharacterized`.
  - `json.Unmarshal` is a `Decoder` parameter (`string -> Option<OcsAuthOptions>`).
  - The digest `getHash` is a `hash` parameter.
- `ocs_properties.dfy` (module `OcsProperties`): lemmas. They cover the
  directory reader described without its loop, the tier precedence, the
  behaviour of empty indicators, and what the fingerprint depends on.

A directory entry is recognised through `EntryField`. The reader reads
`FilePath(dir, f)`, which is `dir + "/" + name`, as the source does at lines 107-150.

### Behaviour of the code worth knowing

- Lines 67 and 77: when the JSON or directory tier fails, the returned error
  keeps only the path and drops the inner error (`JsonSourceFailed(filename)`,
  `DirSourceFailed(dir)`). Only the legacy tier keeps its inner error (line 87).
- File contents are used raw and are not trimmed (lines 111 and 143). A flag
  file holding `true` plus a newline fails the whole read (`UntrimmedFlagFileFails`).
- The completeness error names no field (line 240).
- The legacy tier is selected when the *prefixed* `OCS_ENDPOINT` is present, even
  if empty (line 84). Its values are then read from the *unprefixed* names
  (lines 188-210). `LegacyTierIgnoresPrefix` and `EmptyLegacyIndicatorSelects`
  show the effect.
- The fingerprint input is a plain concatenation with no separators (line 254).
  So two different credential sets can have the same fingerprint
  (`HashInputCollides`). A change to exactly one identity field always changes
  the input (`SingleFieldChangeChangesHashInput`).
- The JSON reader does no completeness check (lines 178-185). Only the JSON tier
  can return an incomplete record (`ResolvedCredentials`,
  `JsonTierSkipsCompletenessCheck`).
- `OCSSnapStoreHash` ignores its `config` argument and always resolves with the
  empty prefix (line 245). `NewOCSSnapStore` instead uses the prefix for
  `config.IsSource` (line 54). So the fingerprint of a source store is computed
  from the unprefixed credentials, not from the ones the store uses. The model's
  `OcsSnapStoreHash` takes no config.

## Model

| member | source | states |
|---|---|---|
| OcsSnapstore.EntryField | pkg/snapstore/ocs_s3_snapstore.go:104-159 | exactly the six field names are recognised, each as the field it names; every other name is recognised as no field |
| OcsSnapstore.DecodeFile | pkg/snapstore/ocs_s3_snapstore.go:107-158 | an identity file's contents become the field's value unchanged; a flag file is accepted exactly when it holds a boolean literal, and it is true exactly when that literal is a true literal |
| OcsSnapstore.IsOcsConfigEmpty | pkg/snapstore/ocs_s3_snapstore.go:236-241 | no error exactly when all four identity fields are non-empty; otherwise the one generic missing-field error, whichever field is missing |
| OcsSnapstore.EntryError | pkg/snapstore/ocs_s3_snapstore.go:107-157 | the error of a recognised entry is a host error: the read error naming the field's file when that file cannot be read, and otherwise the parse error carrying the file's contents |
| OcsSnapstore.ApplyEntry | pkg/snapstore/ocs_s3_snapstore.go:104-159 | one loop iteration succeeds exactly when the entry is unrecognised or its file is readable and decodes; an unrecognised entry leaves the record unchanged; a recognised entry sets its own field to the decoded contents and leaves the other five fields unchanged; a failure happens only for a recognised entry and is exactly that entry's `EntryError` |
| OcsSnapstore.ScanEntries | pkg/snapstore/ocs_s3_snapstore.go:103-160 | every failure of the loop over the listing is a host error (that it is the first broken entry's error is `ScanStopsAtFirstFailure`) |
| OcsSnapstore.CredentialsFromDir | pkg/snapstore/ocs_s3_snapstore.go:95-166 | an unlistable directory gives the listing error; every success is complete; every failure is a host error or the missing-field error |
| OcsSnapstore.ReadOcsCredentialFromDir | pkg/snapstore/ocs_s3_snapstore.go:95-166 | the loop that fills the zero record in place, entry by entry, with early return on a read or parse error and the completeness check at the end, returns exactly `CredentialsFromDir` |
| OcsSnapstore.OcsCredentialsFromJson | pkg/snapstore/ocs_s3_snapstore.go:178-185 | succeeds exactly when the decoder accepts the document, returns the decoded record with no completeness check, and otherwise gives the decode error |
| OcsSnapstore.ReadOcsCredentialsJson | pkg/snapstore/ocs_s3_snapstore.go:168-175 | an unreadable file gives the read error naming the file; otherwise the result is the decoding of its contents |
| OcsSnapstore.CredentialsFromEnv | pkg/snapstore/ocs_s3_snapstore.go:187-223 | succeeds exactly when all four required variables are set and non-empty; otherwise the error names the first missing one in the order endpoint, access key ID, secret, region; on success the four fields equal the variables, each flag is true exactly when its variable holds a true literal (so an unset or malformed flag gives false and no error), and the record is complete |
| OcsSnapstore.ReadOcsCredentialFromEnv | pkg/snapstore/ocs_s3_snapstore.go:187-223 | the sequential reader with its early returns and bool defaults returns exactly `CredentialsFromEnv` |
| OcsSnapstore.ResolvedCredentials | pkg/snapstore/ocs_s3_snapstore.go:62-93 | a non-empty JSON indicator selects the JSON reader alone, and its failure is `JsonSourceFailed(file)`; otherwise a non-empty directory indicator selects the directory reader alone, and its failure is `DirSourceFailed(dir)`; otherwise a present prefixed endpoint variable (even empty) selects the legacy reader, and its failure is wrapped with the inner error; otherwise the result is "unable to get credentials"; a success from any tier but JSON is complete |
| OcsSnapstore.GetOcsAuthOptions | pkg/snapstore/ocs_s3_snapstore.go:62-93 | the method with nested set/non-empty checks and early returns, calling the directory and environment reader methods, returns exactly `ResolvedCredentials` |
| OcsSnapstore.OcsAuthOptionsToGenericS3 | pkg/snapstore/ocs_s3_snapstore.go:225-234 | every one of the six fields is copied unchanged into the generic S3 options |
| OcsSnapstore.HashInput | pkg/snapstore/ocs_s3_snapstore.go:253-254 | the hash input is exactly as long as the four identity fields together: nothing else is added, not even a separator (the field order is `HashInputLayout`) |
| OcsSnapstore.GetOcsHash | pkg/snapstore/ocs_s3_snapstore.go:253-256 | the fingerprint is the digest of the hash input and is the same whatever the two TLS flags are |
| OcsSnapstore.OcsSnapStoreHash | pkg/snapstore/ocs_s3_snapstore.go:244-251 | resolves with the empty prefix; a resolution error is returned unchanged, and a success is fingerprinted |
| OcsProperties.FileNameRecognised | pkg/snapstore/ocs_s3_snapstore.go:104-148 | each field's file name is recognised as that field |
| OcsProperties.ScanCharacterized | pkg/snapstore/ocs_s3_snapstore.go:103-160 | the loop over a listing succeeds exactly when every listed entry is readable; then each field holds the decoded contents of its file if the file is listed and keeps its starting value if not |
| OcsProperties.ScanStopsAtFirstFailure | pkg/snapstore/ocs_s3_snapstore.go:103-160 | a failed loop over the listing stops at the first unreadable entry: every entry before it is readable, and the failure is exactly that entry's read error (naming its file) or parse error (carrying its contents) |
| OcsProperties.UnrecognisedEntryIgnored | pkg/snapstore/ocs_s3_snapstore.go:103-160 | inserting an unrecognised entry anywhere in a listing changes neither the result nor the error |
| OcsProperties.DirReaderCharacterized | pkg/snapstore/ocs_s3_snapstore.go:95-166 | for a listable directory with an unreadable listed entry, the read fails with the `EntryError` of the first such entry; otherwise the read gives the collected record (each field is its file's contents, or the zero value if the file is not listed) when it is complete, and the generic missing-field error when it is not |
| OcsProperties.BrokenEntryFailsDirRead | pkg/snapstore/ocs_s3_snapstore.go:107-158 | a listed field file that cannot be read, or a listed flag file that holds no boolean literal, fails the whole directory read with a host error |
| OcsProperties.UntrimmedFlagFileFails | pkg/snapstore/ocs_s3_snapstore.go:139-146 | a `disableSSL` file holding `true` followed by a newline fails the directory read, because contents are not trimmed |
| OcsProperties.FullDirectoryRead | pkg/snapstore/ocs_s3_snapstore.go:95-166 | a directory listing all six field files (and any other entries), with readable files, literal flags and non-empty identity files, is read into exactly the six files' contents |
| OcsProperties.JsonTierShadowsLowerTiers | pkg/snapstore/ocs_s3_snapstore.go:63-71 | with a non-empty JSON indicator, the result depends on that indicator alone: the directory and legacy variables may take any values |
| OcsProperties.DirTierShadowsLegacyTier | pkg/snapstore/ocs_s3_snapstore.go:73-81 | with no JSON tier and a non-empty directory indicator, the legacy variables may take any values without changing the result |
| OcsProperties.EnvReaderReadsOnlyLegacyVars | pkg/snapstore/ocs_s3_snapstore.go:187-211 | the legacy reader's result depends only on the six unprefixed `OCS_*` variables |
| OcsProperties.IndicatorNamesDistinct | pkg/snapstore/ocs_s3_snapstore.go:27-40 | for any prefix, the three prefixed indicator names are pairwise different, and the two path indicators are never an unprefixed legacy name |
| OcsProperties.EmptyJsonIndicatorFallsThrough | pkg/snapstore/ocs_s3_snapstore.go:63-64 | a JSON indicator set to the empty string resolves exactly as if it were unset |
| OcsProperties.EmptyDirIndicatorFallsThrough | pkg/snapstore/ocs_s3_snapstore.go:73-74 | a directory indicator set to the empty string resolves exactly as if it were unset |
| OcsProperties.EmptyLegacyIndicatorSelects | pkg/snapstore/ocs_s3_snapstore.go:84-91 | an empty `OCS_ENDPOINT` still selects the legacy tier, which then fails naming `OCS_ENDPOINT` instead of giving "unable to get credentials" |
| OcsProperties.LegacyTierIgnoresPrefix | pkg/snapstore/ocs_s3_snapstore.go:84-88 | with prefix `SOURCE_`, a complete set of `SOURCE_OCS_*` variables selects the legacy tier, which then fails because it reads the unprefixed `OCS_ENDPOINT` |
| OcsProperties.JsonTierSkipsCompletenessCheck | pkg/snapstore/ocs_s3_snapstore.go:162-185 | a JSON document that decodes to an endpoint alone is returned as it is, while a directory holding only an endpoint file is refused |
| OcsProperties.AdapterInjective | pkg/snapstore/ocs_s3_snapstore.go:225-234 | the adapter loses no information: different records give different S3 options |
| OcsProperties.FingerprintIgnoresTlsFlags | pkg/snapstore/ocs_s3_snapstore.go:253-256 | records that agree on the access key ID, endpoint, region and secret have the same fingerprint |
| OcsProperties.SingleFieldChangeChangesHashInput | pkg/snapstore/ocs_s3_snapstore.go:254 | a change to exactly one identity field always changes the hash input |
| OcsProperties.HashInputLayout | pkg/snapstore/ocs_s3_snapstore.go:254 | the hash input holds the access key ID, the endpoint, the region and the secret, in that order, each at the offset where the previous one ends |
| OcsProperties.HashInputCollides | pkg/snapstore/ocs_s3_snapstore.go:254 | two records with different identity fields can have the same hash input, so the fingerprint is not injective |
| OcsProperties.DirAndEnvFingerprintsAgree | pkg/snapstore/ocs_s3_snapstore.go:253-256 | a full directory and a legacy environment with the same four identity values both resolve, and they have the same fingerprint whatever their TLS flags |

## Left out

- Real I/O: `os.LookupEnv`, `os.Getenv`, `os.ReadDir` and `os.ReadFile` are reads of the environment and filesystem snapshots described above. File bytes are taken as a string, with no encoding step.
- The order of a directory listing is the order of the snapshot. `os.ReadDir` sorts by name, but since the result does not depend on the order (`ScanCharacterized`), only which error comes first can change.
- `NewOCSSnapStore` and `newGenericS3FromAuthOpt`: they build the S3 client, which is foreign code. `getEnvPrefixString` is not part of this model; the prefix is a parameter.
- `json.Unmarshal`: a library call, modelled as the `Decoder` parameter with no completeness check. Which documents it accepts, and how it fills the record, are not modelled.
- `getHash`: a cryptographic digest that is not part of this model. It is the `hash` parameter, and properties are stated only about its input string.
- `GetEnvVarOrError`, `GetEnvVarToBool` and `strconv.ParseBool` are not part of this model. Their behaviour is the stated assumptions in `host.dfy`.
- Error message texts: only which error occurs, and which path, variable or inner error it carries, is modelled.
