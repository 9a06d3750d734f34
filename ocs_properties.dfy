/** What the credential chain promises, proved about the model in
    `OcsSnapstore`: the directory reader described without its loop, the
    precedence of the three sources, and what the fingerprint depends on. */
module OcsProperties {
  import opened Wrappers
  import opened Host
  import opened OcsSnapstore

  // ---------------------------------------------------------------------
  // The directory reader, described without its loop
  // ---------------------------------------------------------------------

  /** Every entry of the listing can be read and decoded. */
  predicate AllReadable(dir: string, entries: seq<string>, fs: FileSystem)
  {
    forall name :: name in entries ==> EntryReadable(dir, name, fs)
  }

  /** Each field name is recognised as its own field. */
  lemma FileNameRecognised(f: Field)
    ensures EntryField(FileName(f)) == Some(f)
  {
  }

  /** What a listing contributes to field `f` over a record `ao`: the decoded
      contents of the field's file when its name is listed, and `ao`'s value
      otherwise. */
  function Contribution(ao: OcsAuthOptions, dir: string, entries: seq<string>, fs: FileSystem, f: Field)
    : (v: FieldValue)
    requires AllReadable(dir, entries, fs)
    ensures v.Flag? <==> IsTlsFlag(f)
    ensures FileName(f) in entries ==> FilePath(dir, f) in fs.files
  {
    if FileName(f) in entries then
      FileNameRecognised(f);
      assert EntryReadable(dir, FileName(f), fs);
      DecodeFile(f, fs.files[FilePath(dir, f)]).value
    else
      Get(ao, f)
  }

  /** The record a readable listing yields over `ao`, field by field. */
  function Collected(ao: OcsAuthOptions, dir: string, entries: seq<string>, fs: FileSystem)
    : (c: OcsAuthOptions)
    requires AllReadable(dir, entries, fs)
    ensures forall f :: Get(c, f) == Contribution(ao, dir, entries, fs, f)
  {
    var c := OcsAuthOptions(
      endpoint := Contribution(ao, dir, entries, fs, Endpoint).text,
      region := Contribution(ao, dir, entries, fs, Region).text,
      disableSSL := Contribution(ao, dir, entries, fs, DisableSSL).flag,
      insecureSkipVerify := Contribution(ao, dir, entries, fs, InsecureSkipVerify).flag,
      accessKeyID := Contribution(ao, dir, entries, fs, AccessKeyID).text,
      secretAccessKey := Contribution(ao, dir, entries, fs, SecretAccessKey).text);
    c
  }

  /** Two records with the same six field values are the same record. */
  lemma {:induction false} FieldsDetermineRecord(a: OcsAuthOptions, b: OcsAuthOptions)
    requires forall f :: Get(a, f) == Get(b, f)
    ensures a == b
  {
    assert Get(a, Endpoint) == Get(b, Endpoint);
    assert Get(a, AccessKeyID) == Get(b, AccessKeyID);
    assert Get(a, SecretAccessKey) == Get(b, SecretAccessKey);
    assert Get(a, Region) == Get(b, Region);
    assert Get(a, DisableSSL) == Get(b, DisableSSL);
    assert Get(a, InsecureSkipVerify) == Get(b, InsecureSkipVerify);
  }

  /** The scan succeeds exactly when every listed entry is readable, and then
      every field holds the decoded contents of its file when the file is
      listed and keeps its starting value when it is not. */
  lemma {:induction false} ScanCharacterized(ao: OcsAuthOptions, dir: string, entries: seq<string>, fs: FileSystem)
    ensures ScanEntries(ao, dir, entries, fs).Ok? <==> AllReadable(dir, entries, fs)
    ensures ScanEntries(ao, dir, entries, fs).Ok? ==>
      ScanEntries(ao, dir, entries, fs).value == Collected(ao, dir, entries, fs)
    decreases |entries|
  {
    if entries == [] {
      FieldsDetermineRecord(ao, Collected(ao, dir, entries, fs));
    } else {
      var name, rest := entries[0], entries[1..];
      assert entries == [name] + rest;
      assert forall x :: x in entries <==> x == name || x in rest;
      match ApplyEntry(ao, dir, name, fs)
      case Err(_) =>
        assert !EntryReadable(dir, name, fs);
      case Ok(next) =>
        ScanCharacterized(next, dir, rest, fs);
        if AllReadable(dir, entries, fs) {
          assert AllReadable(dir, rest, fs);
          var scanned := ScanEntries(next, dir, rest, fs).value;
          forall f ensures Get(scanned, f) == Get(Collected(ao, dir, entries, fs), f) {
            if FileName(f) !in rest {
              if FileName(f) == name {
                FileNameRecognised(f);
              } else if EntryField(name).Some? {
                assert EntryField(name).value != f;
              }
            }
          }
          FieldsDetermineRecord(scanned, Collected(ao, dir, entries, fs));
        }
    }
  }

  /** Inserting an unrecognised entry anywhere in a listing changes nothing:
      not the result, not the error. */
  lemma {:induction false} UnrecognisedEntryIgnored(
    ao: OcsAuthOptions, dir: string, xs: seq<string>, name: string, ys: seq<string>, fs: FileSystem)
    requires EntryField(name).None?
    ensures ScanEntries(ao, dir, xs + [name] + ys, fs) == ScanEntries(ao, dir, xs + ys, fs)
    decreases |xs|
  {
    if xs == [] {
      assert xs + [name] + ys == [name] + ys;
      assert ([name] + ys)[1..] == ys;
      assert xs + ys == ys;
    } else {
      assert (xs + [name] + ys)[0] == xs[0] && (xs + [name] + ys)[1..] == xs[1..] + [name] + ys;
      assert (xs + ys)[0] == xs[0] && (xs + ys)[1..] == xs[1..] + ys;
      match ApplyEntry(ao, dir, xs[0], fs)
      case Err(_) =>
      case Ok(next) =>
        UnrecognisedEntryIgnored(next, dir, xs[1..], name, ys, fs);
    }
  }

  /** Entry `i` is the first entry of the listing that cannot be read. */
  predicate FirstBroken(dir: string, entries: seq<string>, fs: FileSystem, i: int)
  {
    0 <= i < |entries| && !EntryReadable(dir, entries[i], fs)
    && forall j :: 0 <= j < i ==> EntryReadable(dir, entries[j], fs)
  }

  /** A failed scan stops at the first entry that cannot be read and returns
      that entry's own read or parse error. */
  lemma {:induction false} ScanStopsAtFirstFailure(
    ao: OcsAuthOptions, dir: string, entries: seq<string>, fs: FileSystem)
    ensures ScanEntries(ao, dir, entries, fs).Err? ==>
      exists i :: FirstBroken(dir, entries, fs, i)
        && ScanEntries(ao, dir, entries, fs) == Err(EntryError(dir, entries[i], fs))
    decreases |entries|
  {
    if entries != [] && ScanEntries(ao, dir, entries, fs).Err? {
      match ApplyEntry(ao, dir, entries[0], fs)
      case Err(_) =>
        assert FirstBroken(dir, entries, fs, 0);
      case Ok(next) =>
        var rest := entries[1..];
        ScanStopsAtFirstFailure(next, dir, rest, fs);
        var i :| FirstBroken(dir, rest, fs, i)
          && ScanEntries(next, dir, rest, fs) == Err(EntryError(dir, rest[i], fs));
        assert entries[i + 1] == rest[i];
        forall j | 0 <= j < i + 1 ensures EntryReadable(dir, entries[j], fs) {
          if j > 0 { assert entries[j] == rest[j - 1]; }
        }
        assert FirstBroken(dir, entries, fs, i + 1);
    }
  }

  /** The directory reader, end to end. If a listed entry cannot be read,
      the read fails with the read or parse error of the first such entry; otherwise the read succeeds exactly when the
      collected record is complete, gives the one generic error when it is
      not, and on success every field holds the decoded contents of its file
      if the file is listed and the zero value if it is not. */
  lemma {:induction false} DirReaderCharacterized(dir: string, fs: FileSystem)
    requires dir in fs.dirs
    ensures !AllReadable(dir, fs.dirs[dir], fs) ==>
      exists i :: FirstBroken(dir, fs.dirs[dir], fs, i)
        && CredentialsFromDir(dir, fs) == Err(EntryError(dir, fs.dirs[dir][i], fs))
    ensures AllReadable(dir, fs.dirs[dir], fs) ==>
      var collected := Collected(ZeroOptions, dir, fs.dirs[dir], fs);
      CredentialsFromDir(dir, fs)
        == if Complete(collected) then Ok(collected) else Err(CredentialFieldsMissing)
  {
    ScanCharacterized(ZeroOptions, dir, fs.dirs[dir], fs);
    ScanStopsAtFirstFailure(ZeroOptions, dir, fs.dirs[dir], fs);
  }

  /** A listed field file that cannot be read, or a listed flag file that
      does not hold a boolean literal, fails the whole directory read with a
      host error, whatever else the directory holds. */
  lemma {:induction false} BrokenEntryFailsDirRead(dir: string, fs: FileSystem, f: Field)
    requires dir in fs.dirs && FileName(f) in fs.dirs[dir]
    requires FilePath(dir, f) !in fs.files
          || (IsTlsFlag(f) && fs.files[FilePath(dir, f)] !in TrueLiterals + FalseLiterals)
    ensures CredentialsFromDir(dir, fs).Err? && CredentialsFromDir(dir, fs).error.HostFailed?
  {
    FileNameRecognised(f);
    assert !EntryReadable(dir, FileName(f), fs);
    DirReaderCharacterized(dir, fs);
  }

  /** Contents are taken raw: a flag file holding "true" followed by a
      newline is not a boolean literal, and the whole directory read fails. */
  lemma UntrimmedFlagFileFails(dir: string, fs: FileSystem)
    requires dir in fs.dirs && FileName(DisableSSL) in fs.dirs[dir]
    requires FilePath(dir, DisableSSL) in fs.files && fs.files[FilePath(dir, DisableSSL)] == "true\n"
    ensures CredentialsFromDir(dir, fs).Err?
  {
    FileNameRecognised(DisableSSL);
    assert !EntryReadable(dir, FileName(DisableSSL), fs);
    DirReaderCharacterized(dir, fs);
  }

  // ---------------------------------------------------------------------
  // Precedence
  // ---------------------------------------------------------------------

  /** Once the JSON indicator holds a path, nothing else in the environment
      matters: the directory and legacy variables may take any values. */
  lemma JsonTierShadowsLowerTiers(prefix: string, env: Env, env': Env, fs: FileSystem, decode: Decoder)
    requires Selects(env, prefix + OcsCredentialFileJsonFile)
    requires prefix + OcsCredentialFileJsonFile in env'
    requires env'[prefix + OcsCredentialFileJsonFile] == env[prefix + OcsCredentialFileJsonFile]
    ensures ResolvedCredentials(prefix, env', fs, decode) == ResolvedCredentials(prefix, env, fs, decode)
  {
  }

  /** Once the directory indicator holds a path and the JSON indicator does
      not, only the directory is consulted; the legacy variables may take any
      values. */
  lemma DirTierShadowsLegacyTier(prefix: string, env: Env, env': Env, fs: FileSystem, decode: Decoder)
    requires !Selects(env, prefix + OcsCredentialFileJsonFile) && !Selects(env', prefix + OcsCredentialFileJsonFile)
    requires Selects(env, prefix + OcsCredentialFile)
    requires prefix + OcsCredentialFile in env'
    requires env'[prefix + OcsCredentialFile] == env[prefix + OcsCredentialFile]
    ensures ResolvedCredentials(prefix, env', fs, decode) == ResolvedCredentials(prefix, env, fs, decode)
  {
  }

  /** For any prefix, the three indicator names are pairwise different, and
      the two path indicators are never an unprefixed legacy name. */
  lemma IndicatorNamesDistinct(prefix: string)
    ensures prefix + OcsCredentialFileJsonFile != prefix + OcsCredentialFile
    ensures prefix + OcsCredentialFileJsonFile != prefix + OcsEndpoint
    ensures prefix + OcsCredentialFile != prefix + OcsEndpoint
    ensures forall name :: name in LegacyEnvVars ==>
      name != prefix + OcsCredentialFileJsonFile && name != prefix + OcsCredentialFile
  {
  }

  /** The unprefixed variables the legacy reader reads. */
  const LegacyEnvVars: set<string> :=
    {OcsEndpoint, OcsAccessKeyId, OcsSecretAccessKey, OcsRegion, OcsDisableSsl, OcsInsecureSkipVerify}

  /** The legacy reader sees only the legacy variables. */
  lemma EnvReaderReadsOnlyLegacyVars(env: Env, env': Env)
    requires forall name :: name in LegacyEnvVars ==> (name in env <==> name in env')
    requires forall name :: name in LegacyEnvVars && name in env ==> env[name] == env'[name]
    ensures CredentialsFromEnv(env) == CredentialsFromEnv(env')
  {
  }

  /** An empty JSON indicator behaves exactly as an absent one. */
  lemma {:induction false} EmptyJsonIndicatorFallsThrough(prefix: string, env: Env, fs: FileSystem, decode: Decoder)
    ensures ResolvedCredentials(prefix, env[prefix + OcsCredentialFileJsonFile := ""], fs, decode)
         == ResolvedCredentials(prefix, env - {prefix + OcsCredentialFileJsonFile}, fs, decode)
  {
    var k := prefix + OcsCredentialFileJsonFile;
    var set', unset := env[k := ""], env - {k};
    IndicatorNamesDistinct(prefix);
    EnvReaderReadsOnlyLegacyVars(set', unset);
  }

  /** An empty directory indicator behaves exactly as an absent one. */
  lemma {:induction false} EmptyDirIndicatorFallsThrough(prefix: string, env: Env, fs: FileSystem, decode: Decoder)
    ensures ResolvedCredentials(prefix, env[prefix + OcsCredentialFile := ""], fs, decode)
         == ResolvedCredentials(prefix, env - {prefix + OcsCredentialFile}, fs, decode)
  {
    var k := prefix + OcsCredentialFile;
    var set', unset := env[k := ""], env - {k};
    IndicatorNamesDistinct(prefix);
    EnvReaderReadsOnlyLegacyVars(set', unset);
  }

  /** The legacy indicator selects its tier by mere presence: an empty
      prefixed endpoint variable still hands over to the legacy reader, which
      then fails on the missing unprefixed endpoint. */
  lemma {:induction false} EmptyLegacyIndicatorSelects(env: Env, fs: FileSystem, decode: Decoder)
    requires !Selects(env, OcsCredentialFileJsonFile) && !Selects(env, OcsCredentialFile)
    requires OcsEndpoint in env && env[OcsEndpoint] == ""
    ensures ResolvedCredentials("", env, fs, decode)
         == Err(EnvSourceFailed(HostFailed(MissingEnvVar(OcsEndpoint))))
  {
    assert "" + OcsCredentialFileJsonFile == OcsCredentialFileJsonFile;
    assert "" + OcsCredentialFile == OcsCredentialFile;
    assert "" + OcsEndpoint == OcsEndpoint;
  }

  /** The legacy tier is selected on the prefixed endpoint variable but reads
      the unprefixed variables: with a prefix, a complete set of prefixed
      legacy variables is not enough. */
  lemma {:induction false} LegacyTierIgnoresPrefix(fs: FileSystem, decode: Decoder)
    ensures
      var env := map[
        "SOURCE_OCS_ENDPOINT" := "https://s3.example.com",
        "SOURCE_OCS_ACCESS_KEY_ID" := "AKIA",
        "SOURCE_OCS_SECRET_ACCESS_KEY" := "s3cr3t",
        "SOURCE_OCS_REGION" := "eu-1"];
      ResolvedCredentials("SOURCE_", env, fs, decode)
        == Err(EnvSourceFailed(HostFailed(MissingEnvVar(OcsEndpoint))))
  {
    var env := map[
      "SOURCE_OCS_ENDPOINT" := "https://s3.example.com",
      "SOURCE_OCS_ACCESS_KEY_ID" := "AKIA",
      "SOURCE_OCS_SECRET_ACCESS_KEY" := "s3cr3t",
      "SOURCE_OCS_REGION" := "eu-1"];
    assert "SOURCE_" + OcsEndpoint == "SOURCE_OCS_ENDPOINT";
    assert OcsEndpoint !in env;
    IndicatorNamesDistinct("SOURCE_");
    assert |"SOURCE_" + OcsCredentialFileJsonFile| == 45 && |"SOURCE_" + OcsCredentialFile| == 40;
  }

  /** Only the JSON tier can yield an incomplete record: a document that
      decodes to an endpoint alone is accepted, while a directory holding only
      an endpoint file is refused. */
  lemma {:induction false} JsonTierSkipsCompletenessCheck()
    ensures
      var doc := "{\"endpoint\":\"x\"}";
      var decode: Decoder := (s: string) => if s == doc then Some(ZeroOptions.(endpoint := "x")) else None;
      var fs := FileSystem(map["/creds" := ["endpoint"]], map["/creds.json" := doc, "/creds/endpoint" := "x"]);
      ResolvedCredentials("", map[OcsCredentialFileJsonFile := "/creds.json"], fs, decode)
        == Ok(ZeroOptions.(endpoint := "x"))
      && ResolvedCredentials("", map[OcsCredentialFile := "/creds"], fs, decode)
        == Err(DirSourceFailed("/creds"))
  {
    var doc := "{\"endpoint\":\"x\"}";
    var decode: Decoder := (s: string) => if s == doc then Some(ZeroOptions.(endpoint := "x")) else None;
    var fs := FileSystem(map["/creds" := ["endpoint"]], map["/creds.json" := doc, "/creds/endpoint" := "x"]);
    assert "" + OcsCredentialFileJsonFile == OcsCredentialFileJsonFile;
    assert "" + OcsCredentialFile == OcsCredentialFile;
    assert FilePath("/creds", Endpoint) == "/creds/endpoint";
    assert ScanEntries(ZeroOptions, "/creds", ["endpoint"], fs) == Ok(ZeroOptions.(endpoint := "x"));
    assert !Complete(ZeroOptions.(endpoint := "x")) by {
      assert Get(ZeroOptions.(endpoint := "x"), Region) == Text("");
    }
  }

  // ---------------------------------------------------------------------
  // Adapter
  // ---------------------------------------------------------------------

  /** The adapter loses nothing: different records give different options. */
  lemma AdapterInjective(a: OcsAuthOptions, b: OcsAuthOptions)
    requires OcsAuthOptionsToGenericS3(a) == OcsAuthOptionsToGenericS3(b)
    ensures a == b
  {
  }

  // ---------------------------------------------------------------------
  // Fingerprint
  // ---------------------------------------------------------------------

  /** The four identity fields agree. */
  predicate SameIdentity(a: OcsAuthOptions, b: OcsAuthOptions)
  {
    a.accessKeyID == b.accessKeyID && a.endpoint == b.endpoint
    && a.region == b.region && a.secretAccessKey == b.secretAccessKey
  }

  /** The fingerprint depends on the identity fields only. */
  lemma FingerprintIgnoresTlsFlags(a: OcsAuthOptions, b: OcsAuthOptions, hash: string -> string)
    requires SameIdentity(a, b)
    ensures GetOcsHash(a, hash) == GetOcsHash(b, hash)
  {
  }

  /** Changing a part of a concatenation, with the rest fixed, changes it. */
  lemma {:induction false} ConcatSeparates(x: string, m: string, m': string, y: string)
    requires m != m'
    ensures x + m + y != x + m' + y
  {
    if |m| == |m'| {
      var k :| 0 <= k < |m| && m[k] != m'[k];
      assert (x + m + y)[|x| + k] == m[k];
      assert (x + m' + y)[|x| + k] == m'[k];
    } else {
      assert |x + m + y| != |x + m' + y|;
    }
  }

  /** A change to exactly one identity field always changes the hash input. */
  lemma {:induction false} SingleFieldChangeChangesHashInput(a: OcsAuthOptions, b: OcsAuthOptions, f: Field)
    requires !IsTlsFlag(f) && Get(a, f) != Get(b, f)
    requires forall g :: g != f && !IsTlsFlag(g) ==> Get(a, g) == Get(b, g)
    ensures HashInput(a) != HashInput(b)
  {
    assert Get(a, Endpoint) == Get(b, Endpoint) || f == Endpoint;
    assert Get(a, AccessKeyID) == Get(b, AccessKeyID) || f == AccessKeyID;
    assert Get(a, SecretAccessKey) == Get(b, SecretAccessKey) || f == SecretAccessKey;
    assert Get(a, Region) == Get(b, Region) || f == Region;
    var (k, e, r, s) := (a.accessKeyID, a.endpoint, a.region, a.secretAccessKey);
    match f
    case AccessKeyID =>
      ConcatSeparates([], k, b.accessKeyID, e + r + s);
      assert HashInput(a) == [] + k + (e + r + s);
      assert HashInput(b) == [] + b.accessKeyID + (e + r + s);
    case Endpoint =>
      ConcatSeparates(k, e, b.endpoint, r + s);
      assert HashInput(a) == k + e + (r + s);
      assert HashInput(b) == k + b.endpoint + (r + s);
    case Region =>
      ConcatSeparates(k + e, r, b.region, s);
    case SecretAccessKey =>
      ConcatSeparates(k + e + r, s, b.secretAccessKey, []);
      assert HashInput(a) == k + e + r + s + [];
      assert HashInput(b) == k + e + r + b.secretAccessKey + [];
  }

  /** The hash input holds the access key ID, the endpoint, the region and
      the secret, in that order, each at its own offset. */
  lemma HashInputLayout(c: OcsAuthOptions)
    ensures
      var d, k, e, r := HashInput(c), |c.accessKeyID|, |c.endpoint|, |c.region|;
      d[..k] == c.accessKeyID && d[k..k + e] == c.endpoint
      && d[k + e..k + e + r] == c.region && d[k + e + r..] == c.secretAccessKey
  {
  }

  /** Without separators the hash input is not injective: moving characters
      from one field to the next yields the same input, hence the same
      fingerprint, for different credentials. */
  lemma {:induction false} HashInputCollides()
    ensures exists a: OcsAuthOptions, b: OcsAuthOptions ::
      !SameIdentity(a, b) && HashInput(a) == HashInput(b)
  {
    var a := OcsAuthOptions("b", "r", false, false, "a", "s");
    var b := OcsAuthOptions("", "r", false, false, "ab", "s");
    assert HashInput(a) == "abrs" == HashInput(b);
    assert !SameIdentity(a, b);
  }

  // ---------------------------------------------------------------------
  // A complete credentials directory
  // ---------------------------------------------------------------------

  /** The directory lists all six field files, each readable, the flag files
      holding boolean literals and the identity files non-empty. */
  predicate FullDirectory(dir: string, fs: FileSystem)
  {
    dir in fs.dirs
    && (forall f :: FileName(f) in fs.dirs[dir] && FilePath(dir, f) in fs.files)
    && (forall f :: IsTlsFlag(f) ==> fs.files[FilePath(dir, f)] in TrueLiterals + FalseLiterals)
    && (forall f :: !IsTlsFlag(f) ==> fs.files[FilePath(dir, f)] != "")
  }

  /** The record whose fields are the six files' contents. */
  function FileContents(dir: string, fs: FileSystem): OcsAuthOptions
    requires FullDirectory(dir, fs)
  {
    OcsAuthOptions(
      endpoint := fs.files[FilePath(dir, Endpoint)],
      region := fs.files[FilePath(dir, Region)],
      disableSSL := fs.files[FilePath(dir, DisableSSL)] in TrueLiterals,
      insecureSkipVerify := fs.files[FilePath(dir, InsecureSkipVerify)] in TrueLiterals,
      accessKeyID := fs.files[FilePath(dir, AccessKeyID)],
      secretAccessKey := fs.files[FilePath(dir, SecretAccessKey)])
  }

  /** A directory holding the six field files, and any number of other
      entries, is read into exactly the files' contents. */
  lemma {:induction false} FullDirectoryRead(dir: string, fs: FileSystem)
    requires FullDirectory(dir, fs)
    ensures CredentialsFromDir(dir, fs) == Ok(FileContents(dir, fs))
  {
    var files := fs.dirs[dir];
    forall name | name in files ensures EntryReadable(dir, name, fs) {
    }
    var collected := Collected(ZeroOptions, dir, files, fs);
    forall f ensures Get(collected, f) == Get(FileContents(dir, fs), f) {
    }
    FieldsDetermineRecord(collected, FileContents(dir, fs));
    DirReaderCharacterized(dir, fs);
  }

  /** Credentials read from a directory and from the legacy variables with
      the same identity fields have the same fingerprint, whatever their TLS
      flags. */
  lemma {:induction false} DirAndEnvFingerprintsAgree(dir: string, fs: FileSystem, env: Env, hash: string -> string)
    requires FullDirectory(dir, fs) && RequiredEnvSet(env)
    requires env[OcsEndpoint] == fs.files[FilePath(dir, Endpoint)]
    requires env[OcsRegion] == fs.files[FilePath(dir, Region)]
    requires env[OcsAccessKeyId] == fs.files[FilePath(dir, AccessKeyID)]
    requires env[OcsSecretAccessKey] == fs.files[FilePath(dir, SecretAccessKey)]
    ensures CredentialsFromDir(dir, fs).Ok? && CredentialsFromEnv(env).Ok?
    ensures GetOcsHash(CredentialsFromDir(dir, fs).value, hash) == GetOcsHash(CredentialsFromEnv(env).value, hash)
  {
    FullDirectoryRead(dir, fs);
    FingerprintIgnoresTlsFlags(CredentialsFromDir(dir, fs).value, CredentialsFromEnv(env).value, hash);
  }
}
