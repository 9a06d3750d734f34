/** The credential-resolution chain of the OCS (S3-compatible) snapstore:
    which source supplies the credentials, how each source is read into the
    six-field `ocsAuthOptions` record, the completeness check, the projection
    onto the generic S3 options and the string the fingerprint is taken of. */
module OcsSnapstore {
  import opened Wrappers
  import opened Host

  // Names of the indicator variables; the first two are looked up with the
  // caller's prefix, the legacy variables below without it.
  const OcsCredentialFile: string := "OPENSHIFT_APPLICATION_CREDENTIALS"
  const OcsCredentialFileJsonFile: string := "OPENSHIFT_APPLICATION_CREDENTIALS_JSON"

  const OcsDefaultDisableSsl: bool := false
  const OcsDefaultInsecureSkipVerify: bool := false

  const OcsEndpoint: string := "OCS_ENDPOINT"
  const OcsRegion: string := "OCS_REGION"
  const OcsDisableSsl: string := "OCS_DISABLE_SSL"
  const OcsInsecureSkipVerify: string := "OCS_INSECURE_SKIP_VERIFY"
  const OcsAccessKeyId: string := "OCS_ACCESS_KEY_ID"
  const OcsSecretAccessKey: string := "OCS_SECRET_ACCESS_KEY"

  /** The `ocsAuthOptions` record. */
  datatype OcsAuthOptions = OcsAuthOptions(
    endpoint: string,
    region: string,
    disableSSL: bool,
    insecureSkipVerify: bool,
    accessKeyID: string,
    secretAccessKey: string)

  /** Go's zero value `ocsAuthOptions{}`. */
  const ZeroOptions: OcsAuthOptions := OcsAuthOptions("", "", false, false, "", "")

  /** The six fields of the generic S3 snapstore's `s3AuthOptions` that the
      adapter fills. */
  datatype S3AuthOptions = S3AuthOptions(
    endpoint: string,
    region: string,
    accessKeyID: string,
    secretAccessKey: string,
    disableSSL: bool,
    insecureSkipVerify: bool)

  /** What the chain can fail with. Only which error, and which path or
      variable it carries, is modelled; message texts are not. */
  datatype OcsError =
    | HostFailed(cause: HostError)          // propagated unchanged from the host
    | JsonDecodeFailed                      // json.Unmarshal rejected the document
    | CredentialFieldsMissing               // the completeness check; names no field
    | JsonSourceFailed(filename: string)    // the JSON tier failed; inner error dropped
    | DirSourceFailed(dir: string)          // the directory tier failed; inner error dropped
    | EnvSourceFailed(inner: OcsError)      // the legacy tier failed; inner error kept
    | NoCredentialSource                    // no tier was selected

  /** `json.Unmarshal` into a zeroed `ocsAuthOptions`: the decoded record, or
      None when the document is rejected. Library code, so a parameter. */
  type Decoder = string -> Option<OcsAuthOptions>

  // ---------------------------------------------------------------------
  // Fields, as the directory reader names them
  // ---------------------------------------------------------------------

  /** The six fields of the record, one per recognised directory entry. */
  datatype Field = Endpoint | AccessKeyID | SecretAccessKey | Region | DisableSSL | InsecureSkipVerify

  /** A field's value: text for the four identity fields, a flag for the two
      TLS fields. */
  datatype FieldValue = Text(text: string) | Flag(flag: bool)

  predicate IsTlsFlag(f: Field)
  {
    f == DisableSSL || f == InsecureSkipVerify
  }

  /** The directory entry name that carries field `f`. */
  function FileName(f: Field): string
  {
    match f
    case Endpoint => "endpoint"
    case AccessKeyID => "accessKeyID"
    case SecretAccessKey => "secretAccessKey"
    case Region => "region"
    case DisableSSL => "disableSSL"
    case InsecureSkipVerify => "insecureSkipVerify"
  }

  /** The file the directory reader reads for field `f`. */
  function FilePath(dir: string, f: Field): string
  {
    dir + ("/" + FileName(f))
  }

  /** The field an entry name is recognised as, if any. */
  function EntryField(name: string): (r: Option<Field>)
    ensures r.Some? ==> FileName(r.value) == name
    ensures r.None? ==> forall f :: FileName(f) != name
  {
    if name == "endpoint" then Some(Endpoint)
    else if name == "accessKeyID" then Some(AccessKeyID)
    else if name == "secretAccessKey" then Some(SecretAccessKey)
    else if name == "region" then Some(Region)
    else if name == "disableSSL" then Some(DisableSSL)
    else if name == "insecureSkipVerify" then Some(InsecureSkipVerify)
    else None
  }

  /** The value of field `f` of a record. */
  function Get(ao: OcsAuthOptions, f: Field): FieldValue
  {
    match f
    case Endpoint => Text(ao.endpoint)
    case AccessKeyID => Text(ao.accessKeyID)
    case SecretAccessKey => Text(ao.secretAccessKey)
    case Region => Text(ao.region)
    case DisableSSL => Flag(ao.disableSSL)
    case InsecureSkipVerify => Flag(ao.insecureSkipVerify)
  }

  /** How the directory reader turns a file's contents into a field value:
      raw text for an identity field, strict `ParseBool` for a TLS flag. */
  function DecodeFile(f: Field, contents: string): (r: Result<FieldValue, HostError>)
    ensures r.Ok? <==> (IsTlsFlag(f) ==> contents in TrueLiterals + FalseLiterals)
    ensures r.Ok? && !IsTlsFlag(f) ==> r.value == Text(contents)
    ensures r.Ok? && IsTlsFlag(f) ==> r.value == Flag(contents in TrueLiterals)
  {
    if IsTlsFlag(f) then
      match ParseBool(contents)
      case Err(e) => Err(e)
      case Ok(b) => Ok(Flag(b))
    else
      Ok(Text(contents))
  }

  // ---------------------------------------------------------------------
  // Completeness
  // ---------------------------------------------------------------------

  /** Every identity field is non-empty. */
  predicate Complete(ao: OcsAuthOptions)
  {
    forall f :: !IsTlsFlag(f) ==> Get(ao, f) != Text("")
  }

  /** `isOCSConfigEmpty`: no error exactly when the record is complete, and
      otherwise the one generic error, whichever field is missing. */
  function IsOcsConfigEmpty(config: OcsAuthOptions): (r: Option<OcsError>)
    ensures r.None? <==> Complete(config)
    ensures r.Some? ==> r.value == CredentialFieldsMissing
  {
    if |config.accessKeyID| != 0 && |config.region| != 0
       && |config.secretAccessKey| != 0 && |config.endpoint| != 0
    then None
    else
      assert Get(config, AccessKeyID) == Text("") || Get(config, Region) == Text("")
          || Get(config, SecretAccessKey) == Text("") || Get(config, Endpoint) == Text("");
      Some(CredentialFieldsMissing)
  }

  // ---------------------------------------------------------------------
  // Directory reader
  // ---------------------------------------------------------------------

  /** The contents of a recognised entry can be read and decoded. An entry
      that is not recognised is always fine: it is never read. */
  predicate EntryReadable(dir: string, name: string, fs: FileSystem)
  {
    match EntryField(name)
    case None => true
    case Some(f) =>
      FilePath(dir, f) in fs.files && DecodeFile(f, fs.files[FilePath(dir, f)]).Ok?
  }

  /** The error a recognised entry that is not readable fails with: the
      read error naming its file when the file cannot be read, and otherwise
      the parse error for its contents. */
  function EntryError(dir: string, name: string, fs: FileSystem): (e: OcsError)
    requires EntryField(name).Some?
    ensures e.HostFailed?
  {
    var f := EntryField(name).value;
    if FilePath(dir, f) !in fs.files then HostFailed(ReadFileFailed(FilePath(dir, f)))
    else HostFailed(ParseBoolSyntax(fs.files[FilePath(dir, f)]))
  }

  /** One iteration of the reader's loop: the record after entry `name`. */
  function ApplyEntry(ao: OcsAuthOptions, dir: string, name: string, fs: FileSystem)
    : (r: Result<OcsAuthOptions, OcsError>)
    ensures r.Ok? <==> EntryReadable(dir, name, fs)
    ensures EntryField(name).None? ==> r == Ok(ao)
    ensures r.Ok? && EntryField(name).Some? ==>
      var f := EntryField(name).value;
      Get(r.value, f) == DecodeFile(f, fs.files[FilePath(dir, f)]).value
      && forall g :: g != f ==> Get(r.value, g) == Get(ao, g)
    ensures r.Err? ==> EntryField(name).Some? && r.error == EntryError(dir, name, fs)
  {
    match EntryField(name)
    case None => Ok(ao)
    case Some(f) =>
      match ReadFile(fs, FilePath(dir, f))
      case Err(e) => Err(HostFailed(e))
      case Ok(data) =>
        match DecodeFile(f, data)
        case Err(e) => Err(HostFailed(e))
        case Ok(v) =>
          Ok(match f
             case Endpoint => ao.(endpoint := v.text)
             case AccessKeyID => ao.(accessKeyID := v.text)
             case SecretAccessKey => ao.(secretAccessKey := v.text)
             case Region => ao.(region := v.text)
             case DisableSSL => ao.(disableSSL := v.flag)
             case InsecureSkipVerify => ao.(insecureSkipVerify := v.flag))
  }

  /** The reader's loop over `entries`, from record `ao`, stopping at the
      first entry that fails. */
  function ScanEntries(ao: OcsAuthOptions, dir: string, entries: seq<string>, fs: FileSystem)
    : (r: Result<OcsAuthOptions, OcsError>)
    ensures r.Err? ==> r.error.HostFailed?
    decreases |entries|
  {
    if entries == [] then Ok(ao)
    else
      match ApplyEntry(ao, dir, entries[0], fs)
      case Err(e) => Err(e)
      case Ok(next) => ScanEntries(next, dir, entries[1..], fs)
  }

  /** `readOCSCredentialFromDir` as a value: list the directory, scan it from
      the zero record, then check completeness. */
  function CredentialsFromDir(dir: string, fs: FileSystem): (r: Result<OcsAuthOptions, OcsError>)
    ensures dir !in fs.dirs ==> r == Err(HostFailed(ReadDirFailed(dir)))
    ensures r.Ok? ==> Complete(r.value)
    ensures r.Err? ==> r.error.HostFailed? || r.error == CredentialFieldsMissing
  {
    match ReadDir(fs, dir)
    case Err(e) => Err(HostFailed(e))
    case Ok(files) =>
      match ScanEntries(ZeroOptions, dir, files, fs)
      case Err(e) => Err(e)
      case Ok(ao) =>
        match IsOcsConfigEmpty(ao)
        case Some(e) => Err(e)
        case None => Ok(ao)
  }

  /** `readOCSCredentialFromDir`: fills the zero record in place, entry by
      entry, returning at the first read or parse error, then checks that the
      record is complete. */
  method ReadOcsCredentialFromDir(dirname: string, fs: FileSystem)
    returns (r: Result<OcsAuthOptions, OcsError>)
    ensures r == CredentialsFromDir(dirname, fs)
  {
    var ao := ZeroOptions;

    var listing := ReadDir(fs, dirname);
    if listing.Err? {
      return Err(HostFailed(listing.error));
    }
    var files := listing.value;

    var i := 0;
    while i < |files|
      invariant i <= |files|
      invariant ScanEntries(ZeroOptions, dirname, files, fs) == ScanEntries(ao, dirname, files[i..], fs)
    {
      assert files[i..][1..] == files[i + 1..];
      var name := files[i];
      if name == "endpoint" {
        var data := ReadFile(fs, FilePath(dirname, Endpoint));
        if data.Err? {
          return Err(HostFailed(data.error));
        }
        ao := ao.(endpoint := data.value);
      } else if name == "accessKeyID" {
        var data := ReadFile(fs, FilePath(dirname, AccessKeyID));
        if data.Err? {
          return Err(HostFailed(data.error));
        }
        ao := ao.(accessKeyID := data.value);
      } else if name == "secretAccessKey" {
        var data := ReadFile(fs, FilePath(dirname, SecretAccessKey));
        if data.Err? {
          return Err(HostFailed(data.error));
        }
        ao := ao.(secretAccessKey := data.value);
      } else if name == "region" {
        var data := ReadFile(fs, FilePath(dirname, Region));
        if data.Err? {
          return Err(HostFailed(data.error));
        }
        ao := ao.(region := data.value);
      } else if name == "disableSSL" {
        var data := ReadFile(fs, FilePath(dirname, DisableSSL));
        if data.Err? {
          return Err(HostFailed(data.error));
        }
        var parsed := ParseBool(data.value);
        if parsed.Err? {
          return Err(HostFailed(parsed.error));
        }
        ao := ao.(disableSSL := parsed.value);
      } else if name == "insecureSkipVerify" {
        var data := ReadFile(fs, FilePath(dirname, InsecureSkipVerify));
        if data.Err? {
          return Err(HostFailed(data.error));
        }
        var parsed := ParseBool(data.value);
        if parsed.Err? {
          return Err(HostFailed(parsed.error));
        }
        ao := ao.(insecureSkipVerify := parsed.value);
      }
      i := i + 1;
    }

    var err := IsOcsConfigEmpty(ao);
    if err.Some? {
      return Err(err.value);
    }
    return Ok(ao);
  }

  // ---------------------------------------------------------------------
  // JSON reader
  // ---------------------------------------------------------------------

  /** `ocsCredentialsFromJSON`: whatever the decoder yields, with no
      completeness check. */
  function OcsCredentialsFromJson(jsonData: string, decode: Decoder): (r: Result<OcsAuthOptions, OcsError>)
    ensures r.Ok? <==> decode(jsonData).Some?
    ensures r.Ok? ==> r.value == decode(jsonData).value
    ensures r.Err? ==> r.error == JsonDecodeFailed
  {
    match decode(jsonData)
    case None => Err(JsonDecodeFailed)
    case Some(ao) => Ok(ao)
  }

  /** `readOCSCredentialsJSON`: read the file, then decode it. */
  function ReadOcsCredentialsJson(filename: string, fs: FileSystem, decode: Decoder)
    : (r: Result<OcsAuthOptions, OcsError>)
    ensures filename !in fs.files ==> r == Err(HostFailed(ReadFileFailed(filename)))
    ensures filename in fs.files ==> r == OcsCredentialsFromJson(fs.files[filename], decode)
  {
    match ReadFile(fs, filename)
    case Err(e) => Err(HostFailed(e))
    case Ok(jsonData) => OcsCredentialsFromJson(jsonData, decode)
  }

  // ---------------------------------------------------------------------
  // Environment reader
  // ---------------------------------------------------------------------

  /** All four required legacy variables are set and not empty. */
  predicate RequiredEnvSet(env: Env)
  {
    HasValue(env, OcsEndpoint) && HasValue(env, OcsAccessKeyId)
    && HasValue(env, OcsSecretAccessKey) && HasValue(env, OcsRegion)
  }

  /** `readOcsCredentialFromEnv` as a value. The required variables are read
      in the order endpoint, access key ID, secret, region, and the first one
      unset or empty is the error; an optional flag is true exactly when its
      variable holds a true literal, and false otherwise. */
  function CredentialsFromEnv(env: Env): (r: Result<OcsAuthOptions, OcsError>)
    ensures r.Ok? <==> RequiredEnvSet(env)
    ensures !HasValue(env, OcsEndpoint) ==>
      r == Err(HostFailed(MissingEnvVar(OcsEndpoint)))
    ensures HasValue(env, OcsEndpoint) && !HasValue(env, OcsAccessKeyId) ==>
      r == Err(HostFailed(MissingEnvVar(OcsAccessKeyId)))
    ensures HasValue(env, OcsEndpoint) && HasValue(env, OcsAccessKeyId)
            && !HasValue(env, OcsSecretAccessKey) ==>
      r == Err(HostFailed(MissingEnvVar(OcsSecretAccessKey)))
    ensures HasValue(env, OcsEndpoint) && HasValue(env, OcsAccessKeyId)
            && HasValue(env, OcsSecretAccessKey) && !HasValue(env, OcsRegion) ==>
      r == Err(HostFailed(MissingEnvVar(OcsRegion)))
    ensures r.Ok? ==>
      r.value.endpoint == env[OcsEndpoint] && r.value.accessKeyID == env[OcsAccessKeyId]
      && r.value.secretAccessKey == env[OcsSecretAccessKey] && r.value.region == env[OcsRegion]
      && (r.value.disableSSL <==> OcsDisableSsl in env && env[OcsDisableSsl] in TrueLiterals)
      && (r.value.insecureSkipVerify <==>
            OcsInsecureSkipVerify in env && env[OcsInsecureSkipVerify] in TrueLiterals)
    ensures r.Ok? ==> Complete(r.value)
  {
    match GetEnvVarOrError(env, OcsEndpoint)
    case Err(e) => Err(HostFailed(e))
    case Ok(endpoint) =>
      match GetEnvVarOrError(env, OcsAccessKeyId)
      case Err(e) => Err(HostFailed(e))
      case Ok(accessKeyID) =>
        match GetEnvVarOrError(env, OcsSecretAccessKey)
        case Err(e) => Err(HostFailed(e))
        case Ok(secretAccessKey) =>
          match GetEnvVarOrError(env, OcsRegion)
          case Err(e) => Err(HostFailed(e))
          case Ok(region) =>
            var disableSSL := match GetEnvVarToBool(env, OcsDisableSsl)
              case Err(_) => OcsDefaultDisableSsl
              case Ok(b) => b;
            var insecureSkipVerify := match GetEnvVarToBool(env, OcsInsecureSkipVerify)
              case Err(_) => OcsDefaultInsecureSkipVerify
              case Ok(b) => b;
            Ok(OcsAuthOptions(endpoint, region, disableSSL, insecureSkipVerify, accessKeyID, secretAccessKey))
  }

  /** `readOcsCredentialFromEnv`: four required reads with early return, then
      two optional flags that default to false. */
  method ReadOcsCredentialFromEnv(env: Env) returns (r: Result<OcsAuthOptions, OcsError>)
    ensures r == CredentialsFromEnv(env)
  {
    var endpoint := GetEnvVarOrError(env, OcsEndpoint);
    if endpoint.Err? {
      return Err(HostFailed(endpoint.error));
    }
    var accessKeyID := GetEnvVarOrError(env, OcsAccessKeyId);
    if accessKeyID.Err? {
      return Err(HostFailed(accessKeyID.error));
    }
    var secretAccessKey := GetEnvVarOrError(env, OcsSecretAccessKey);
    if secretAccessKey.Err? {
      return Err(HostFailed(secretAccessKey.error));
    }
    var region := GetEnvVarOrError(env, OcsRegion);
    if region.Err? {
      return Err(HostFailed(region.error));
    }
    var disableSSL := OcsDefaultDisableSsl;
    var parsed := GetEnvVarToBool(env, OcsDisableSsl);
    if parsed.Ok? {
      disableSSL := parsed.value;
    }
    var insecureSkipVerify := OcsDefaultInsecureSkipVerify;
    parsed := GetEnvVarToBool(env, OcsInsecureSkipVerify);
    if parsed.Ok? {
      insecureSkipVerify := parsed.value;
    }

    var ao := OcsAuthOptions(
      endpoint := endpoint.value,
      region := region.value,
      disableSSL := disableSSL,
      insecureSkipVerify := insecureSkipVerify,
      accessKeyID := accessKeyID.value,
      secretAccessKey := secretAccessKey.value);
    return Ok(ao);
  }

  // ---------------------------------------------------------------------
  // Precedence resolver
  // ---------------------------------------------------------------------

  /** An indicator selects its tier only when it is set and not empty. */
  predicate Selects(env: Env, name: string)
  {
    LookupEnv(env, name).Some? && Getenv(env, name) != ""
  }

  /** `getOCSAuthOptions` as a value. JSON beats directory beats legacy; a
      selected tier's failure is final and never falls through. */
  function ResolvedCredentials(prefix: string, env: Env, fs: FileSystem, decode: Decoder)
    : (r: Result<OcsAuthOptions, OcsError>)
    ensures Selects(env, prefix + OcsCredentialFileJsonFile) ==>
      var filename := env[prefix + OcsCredentialFileJsonFile];
      var inner := ReadOcsCredentialsJson(filename, fs, decode);
      (r.Ok? <==> inner.Ok?) && (r.Ok? ==> r == inner)
      && (r.Err? ==> r.error == JsonSourceFailed(filename))
    ensures !Selects(env, prefix + OcsCredentialFileJsonFile) && Selects(env, prefix + OcsCredentialFile) ==>
      var dir := env[prefix + OcsCredentialFile];
      var inner := CredentialsFromDir(dir, fs);
      (r.Ok? <==> inner.Ok?) && (r.Ok? ==> r == inner)
      && (r.Err? ==> r.error == DirSourceFailed(dir))
    ensures !Selects(env, prefix + OcsCredentialFileJsonFile) && !Selects(env, prefix + OcsCredentialFile)
            && prefix + OcsEndpoint in env ==>
      var inner := CredentialsFromEnv(env);
      (r.Ok? <==> inner.Ok?) && (r.Ok? ==> r == inner)
      && (r.Err? ==> r.error == EnvSourceFailed(inner.error))
    ensures !Selects(env, prefix + OcsCredentialFileJsonFile) && !Selects(env, prefix + OcsCredentialFile)
            && prefix + OcsEndpoint !in env ==>
      r == Err(NoCredentialSource)
    ensures r.Ok? && !Selects(env, prefix + OcsCredentialFileJsonFile) ==> Complete(r.value)
  {
    if Selects(env, prefix + OcsCredentialFileJsonFile) then
      var filename := Getenv(env, prefix + OcsCredentialFileJsonFile);
      match ReadOcsCredentialsJson(filename, fs, decode)
      case Err(_) => Err(JsonSourceFailed(filename))
      case Ok(ao) => Ok(ao)
    else if Selects(env, prefix + OcsCredentialFile) then
      var dir := Getenv(env, prefix + OcsCredentialFile);
      match CredentialsFromDir(dir, fs)
      case Err(_) => Err(DirSourceFailed(dir))
      case Ok(ao) => Ok(ao)
    else if LookupEnv(env, prefix + OcsEndpoint).Some? then
      match CredentialsFromEnv(env)
      case Err(e) => Err(EnvSourceFailed(e))
      case Ok(ao) => Ok(ao)
    else
      Err(NoCredentialSource)
  }

  /** `getOCSAuthOptions`: probes the three indicators in order and hands
      over to exactly one reader. */
  method GetOcsAuthOptions(prefix: string, env: Env, fs: FileSystem, decode: Decoder)
    returns (r: Result<OcsAuthOptions, OcsError>)
    ensures r == ResolvedCredentials(prefix, env, fs, decode)
  {
    if LookupEnv(env, prefix + OcsCredentialFileJsonFile).Some? {
      var filename := Getenv(env, prefix + OcsCredentialFileJsonFile);
      if filename != "" {
        var ao := ReadOcsCredentialsJson(filename, fs, decode);
        if ao.Err? {
          return Err(JsonSourceFailed(filename));
        }
        return ao;
      }
    }

    if LookupEnv(env, prefix + OcsCredentialFile).Some? {
      var dir := Getenv(env, prefix + OcsCredentialFile);
      if dir != "" {
        var ao := ReadOcsCredentialFromDir(dir, fs);
        if ao.Err? {
          return Err(DirSourceFailed(dir));
        }
        return ao;
      }
    }

    if LookupEnv(env, prefix + OcsEndpoint).Some? {
      var ao := ReadOcsCredentialFromEnv(env);
      if ao.Err? {
        return Err(EnvSourceFailed(ao.error));
      }
      return ao;
    }

    return Err(NoCredentialSource);
  }

  // ---------------------------------------------------------------------
  // Adapter and fingerprint
  // ---------------------------------------------------------------------

  /** `ocsAuthOptionsToGenericS3`: a field-for-field copy. */
  function OcsAuthOptionsToGenericS3(options: OcsAuthOptions): (s: S3AuthOptions)
    ensures s.endpoint == options.endpoint && s.region == options.region
    ensures s.accessKeyID == options.accessKeyID && s.secretAccessKey == options.secretAccessKey
    ensures s.disableSSL == options.disableSSL && s.insecureSkipVerify == options.insecureSkipVerify
  {
    S3AuthOptions(
      endpoint := options.endpoint,
      region := options.region,
      accessKeyID := options.accessKeyID,
      secretAccessKey := options.secretAccessKey,
      disableSSL := options.disableSSL,
      insecureSkipVerify := options.insecureSkipVerify)
  }

  /** The string `getOCSHash` hands to the digest: the access key ID,
      endpoint, region and secret, one after another with no separator. */
  function HashInput(config: OcsAuthOptions): (data: string)
    ensures |data| == |config.accessKeyID| + |config.endpoint| + |config.region| + |config.secretAccessKey|
  {
    config.accessKeyID + config.endpoint + config.region + config.secretAccessKey
  }

  /** `getOCSHash`, over a digest `hash` that is not part of this model. The
      TLS flags never reach the digest. */
  function GetOcsHash(config: OcsAuthOptions, hash: string -> string): (h: string)
    ensures h == hash(HashInput(config.(disableSSL := false, insecureSkipVerify := false)))
  {
    hash(HashInput(config))
  }

  /** `OCSSnapStoreHash`: resolve with the empty prefix, then fingerprint. */
  function OcsSnapStoreHash(env: Env, fs: FileSystem, decode: Decoder, hash: string -> string)
    : (r: Result<string, OcsError>)
    ensures r.Ok? <==> ResolvedCredentials("", env, fs, decode).Ok?
    ensures r.Err? ==> r.error == ResolvedCredentials("", env, fs, decode).error
    ensures r.Ok? ==> r.value == GetOcsHash(ResolvedCredentials("", env, fs, decode).value, hash)
  {
    match ResolvedCredentials("", env, fs, decode)
    case Err(e) => Err(e)
    case Ok(ao) => Ok(GetOcsHash(ao, hash))
  }
}
