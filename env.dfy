/**
 * The mail environment file (src/config/env.ts): the schema the eleven required keys of
 * `~/.agentmail/.env` must pass, the nested config it is turned into, the report
 * `validateEnvFile` gives, and the failures of `loadMailEnvConfig`.
 *
 * `dotenv.parse` of the file's bytes is a function given from outside, and so is zod's
 * `.email()` check.
 */
module Env {
  import opened Wrappers
  import opened Text
  import opened FileSystem
  import opened Records

  /** What `dotenv.parse` returns: a value for each key the file sets. */
  type RawEnv = map<string, string>

  /** What a refused key is reported for. */
  datatype IssueKind =
    | Required       // missing: the schema got `undefined`
    | InvalidType    // the preprocessor left a string where a number or boolean was wanted
    | TooSmall       // an empty string, or a port below 1
    | TooBig         // a port above 65535
    | InvalidEmail   // `.email()` refused the address

  datatype Issue = Issue(key: string, kind: IssueKind)

  /** `REQUIRED_ENV_KEYS` (src/config/env.ts:73-85), in declaration order. */
  const RequiredEnvKeys: seq<string> := [
    "AGENTMAIL_EMAIL",
    "SMTP_HOST", "SMTP_PORT", "SMTP_SECURE", "SMTP_USER", "SMTP_PASS",
    "IMAP_HOST", "IMAP_PORT", "IMAP_SECURE", "IMAP_USER", "IMAP_PASS"]

  function Lookup(raw: RawEnv, key: string): Option<string> {
    if key in raw then Some(raw[key]) else None
  }

  /**
   * `numberFromString` (src/config/env.ts:7-20): the string is read with
   * `Number.parseInt(value, 10)`, and the number must be a whole number in 1..65535; a
   * string with no leading digits stays a string and is refused as one.
   */
  function PortFromString(key: string, v: Option<string>): (r: Result<int, Issue>)
    ensures r.Ok? <==> v.Some? && ParseIntPrefix(v.value).Some? && 1 <= ParseIntPrefix(v.value).value <= 65535
    ensures r.Ok? ==> r.value == ParseIntPrefix(v.value).value
    ensures r.Err? ==> r.error.key == key && (r.error.kind == Required <==> v.None?)
  {
    match v
    case None => Err(Issue(key, Required))
    case Some(s) =>
      match ParseIntPrefix(s)
      case None => Err(Issue(key, InvalidType))
      case Some(n) =>
        if n < 1 then Err(Issue(key, TooSmall))
        else if n > 65535 then Err(Issue(key, TooBig))
        else Ok(n)
  }

  /**
   * `booleanFromString` (src/config/env.ts:22-39): only `true` and `false`, after trimming
   * and lower-casing, are booleans; anything else is refused.
   */
  function BoolFromString(key: string, v: Option<string>): (r: Result<bool, Issue>)
    ensures r.Ok? <==> v.Some? && (ToLower(Trim(v.value)) == "true" || ToLower(Trim(v.value)) == "false")
    ensures r.Ok? ==> (r.value <==> ToLower(Trim(v.value)) == "true")
    ensures r.Err? ==> r.error.key == key && (r.error.kind == Required <==> v.None?)
  {
    match v
    case None => Err(Issue(key, Required))
    case Some(s) =>
      var normalized := ToLower(Trim(s));
      if normalized == "true" then Ok(true)
      else if normalized == "false" then Ok(false)
      else Err(Issue(key, InvalidType))
  }

  /** `z.string().trim().email()` */
  function TrimmedEmail(key: string, v: Option<string>, isEmail: string -> bool): (r: Result<string, Issue>)
    ensures r.Ok? <==> v.Some? && isEmail(Trim(v.value))
    ensures r.Ok? ==> r.value == Trim(v.value)
    ensures r.Err? ==> r.error.key == key && (r.error.kind == Required <==> v.None?)
  {
    match v
    case None => Err(Issue(key, Required))
    case Some(s) => if isEmail(Trim(s)) then Ok(Trim(s)) else Err(Issue(key, InvalidEmail))
  }

  /** `z.string().trim().min(1)` */
  function TrimmedText(key: string, v: Option<string>): (r: Result<string, Issue>)
    ensures r.Ok? <==> v.Some? && Trim(v.value) != ""
    ensures r.Ok? ==> r.value == Trim(v.value)
    ensures r.Err? ==> r.error.key == key && (r.error.kind == Required <==> v.None?)
  {
    match v
    case None => Err(Issue(key, Required))
    case Some(s) => if Trim(s) != "" then Ok(Trim(s)) else Err(Issue(key, TooSmall))
  }

  /** `z.string().min(1)`: the value is kept as it is, whitespace included. */
  function VerbatimText(key: string, v: Option<string>): (r: Result<string, Issue>)
    ensures r.Ok? <==> v.Some? && v.value != ""
    ensures r.Ok? ==> r.value == v.value
    ensures r.Err? ==> r.error.key == key && (r.error.kind == Required <==> v.None?)
  {
    match v
    case None => Err(Issue(key, Required))
    case Some(s) => if s != "" then Ok(s) else Err(Issue(key, TooSmall))
  }

  /** The issue a refused key contributes to the list, none for an accepted key. */
  function IssuesOf<T>(r: Result<T, Issue>): (issues: seq<Issue>)
    ensures |issues| <= 1 && (issues == [] <==> r.Ok?)
  {
    if r.Ok? then [] else [r.error]
  }

  /** The eleven keys checked one by one, as zod checks every key of the object. */
  datatype Checked = Checked(
    email: Result<string, Issue>,
    smtpHost: Result<string, Issue>, smtpPort: Result<int, Issue>, smtpSecure: Result<bool, Issue>,
    smtpUser: Result<string, Issue>, smtpPass: Result<string, Issue>,
    imapHost: Result<string, Issue>, imapPort: Result<int, Issue>, imapSecure: Result<bool, Issue>,
    imapUser: Result<string, Issue>, imapPass: Result<string, Issue>)
  {
    predicate AllOk() {
      && email.Ok? && smtpHost.Ok? && smtpPort.Ok? && smtpSecure.Ok? && smtpUser.Ok? && smtpPass.Ok?
      && imapHost.Ok? && imapPort.Ok? && imapSecure.Ok? && imapUser.Ok? && imapPass.Ok?
    }

    /** The issues in declaration order of the keys: none exactly when every key is accepted. */
    function Issues(): (issues: seq<Issue>)
      ensures issues == [] <==> AllOk()
    {
      IssuesOf(email) + IssuesOf(smtpHost) + IssuesOf(smtpPort) + IssuesOf(smtpSecure) + IssuesOf(smtpUser)
      + IssuesOf(smtpPass) + IssuesOf(imapHost) + IssuesOf(imapPort) + IssuesOf(imapSecure)
      + IssuesOf(imapUser) + IssuesOf(imapPass)
    }
  }

  /** `rawEnvSchema` (src/config/env.ts:41-53) key by key. */
  function CheckKeys(raw: RawEnv, isEmail: string -> bool): Checked {
    Checked(
      TrimmedEmail("AGENTMAIL_EMAIL", Lookup(raw, "AGENTMAIL_EMAIL"), isEmail),
      TrimmedText("SMTP_HOST", Lookup(raw, "SMTP_HOST")),
      PortFromString("SMTP_PORT", Lookup(raw, "SMTP_PORT")),
      BoolFromString("SMTP_SECURE", Lookup(raw, "SMTP_SECURE")),
      TrimmedText("SMTP_USER", Lookup(raw, "SMTP_USER")),
      VerbatimText("SMTP_PASS", Lookup(raw, "SMTP_PASS")),
      TrimmedText("IMAP_HOST", Lookup(raw, "IMAP_HOST")),
      PortFromString("IMAP_PORT", Lookup(raw, "IMAP_PORT")),
      BoolFromString("IMAP_SECURE", Lookup(raw, "IMAP_SECURE")),
      TrimmedText("IMAP_USER", Lookup(raw, "IMAP_USER")),
      VerbatimText("IMAP_PASS", Lookup(raw, "IMAP_PASS")))
  }

  /**
   * `safeParseMailEnv` (src/config/env.ts:55-71,89-91): the config when no key is refused,
   * with the flat keys moved into `email`, `smtp` and `imap`; otherwise every issue.
   */
  function ParseMailEnv(raw: RawEnv, isEmail: string -> bool): (r: Result<MailEnvConfig, seq<Issue>>)
    ensures r.Err? ==> r.error == CheckKeys(raw, isEmail).Issues() && r.error != []
    ensures r.Ok? <==> CheckKeys(raw, isEmail).AllOk()
  {
    var c := CheckKeys(raw, isEmail);
    if c.Issues() != [] then Err(c.Issues())
    else
      Ok(MailEnvConfig(
        c.email.value,
        Endpoint(c.smtpHost.value, c.smtpPort.value, c.smtpSecure.value, c.smtpUser.value, c.smtpPass.value),
        Endpoint(c.imapHost.value, c.imapPort.value, c.imapSecure.value, c.imapUser.value, c.imapPass.value)))
  }

  /**
   * A parsed config holds the trimmed address, hosts and users, the ports as read by
   * `parseInt`, the secure flags, and the passwords exactly as written.
   */
  lemma ParsedConfigFields(raw: RawEnv, isEmail: string -> bool)
    requires ParseMailEnv(raw, isEmail).Ok?
    ensures forall k :: k in RequiredEnvKeys ==> k in raw
    ensures var c := ParseMailEnv(raw, isEmail).value;
      && c.email == Trim(raw["AGENTMAIL_EMAIL"]) && isEmail(c.email)
      && c.smtpServer.host == Trim(raw["SMTP_HOST"]) && c.smtpServer.host != ""
      && Some(c.smtpServer.port) == ParseIntPrefix(raw["SMTP_PORT"]) && 1 <= c.smtpServer.port <= 65535
      && (c.smtpServer.secure <==> ToLower(Trim(raw["SMTP_SECURE"])) == "true")
      && c.smtpServer.user == Trim(raw["SMTP_USER"]) && c.smtpServer.pass == raw["SMTP_PASS"]
      && c.imapServer.host == Trim(raw["IMAP_HOST"]) && c.imapServer.host != ""
      && Some(c.imapServer.port) == ParseIntPrefix(raw["IMAP_PORT"]) && 1 <= c.imapServer.port <= 65535
      && (c.imapServer.secure <==> ToLower(Trim(raw["IMAP_SECURE"])) == "true")
      && c.imapServer.user == Trim(raw["IMAP_USER"]) && c.imapServer.pass == raw["IMAP_PASS"]
  {
    var ch := CheckKeys(raw, isEmail);
    assert ch.AllOk();
  }

  /** Parsing an empty environment reports every required key as required, in order. */
  lemma EmptyEnvMissesEveryKey(isEmail: string -> bool)
    ensures ParseMailEnv(map[], isEmail).Err?
    ensures |ParseMailEnv(map[], isEmail).error| == |RequiredEnvKeys|
    ensures forall i :: 0 <= i < |RequiredEnvKeys| ==>
      ParseMailEnv(map[], isEmail).error[i] == Issue(RequiredEnvKeys[i], Required)
  {
    var c := CheckKeys(map[], isEmail);
    assert c.Issues() == seq(11, i requires 0 <= i < 11 => Issue(RequiredEnvKeys[i], Required));
  }

  /** `"465"` and `"993"` read as those ports. */
  lemma PortExamples(a: string, b: string)
    requires a == "465" && b == "993"
    ensures PortFromString("SMTP_PORT", Some(a)) == Ok(465)
    ensures PortFromString("IMAP_PORT", Some(b)) == Ok(993)
  {
    assert NatToString(465) == a;
    assert NatToString(993) == b;
    ParseIntPrefixOfNat(465);
    ParseIntPrefixOfNat(993);
  }

  /** `"yes"` is not a boolean, whatever its case or padding. */
  lemma SecureRefusesYes(s: string)
    requires s == "yes"
    ensures BoolFromString("SMTP_SECURE", Some(s)) == Err(Issue("SMTP_SECURE", InvalidType))
  {
    assert !IsWhitespace(s[0]) && !IsWhitespace(s[|s| - 1]);
    TrimNoop(s);
    assert ToLower(s) == s;
  }

  // ---------------------------------------------------------------- validateEnvFile

  /** A required key counts as missing when it is not set or set to whitespace only. */
  predicate IsMissing(raw: RawEnv, key: string) {
    key !in raw || Trim(raw[key]) == ""
  }

  /** `REQUIRED_ENV_KEYS.filter(...)` over a list of keys, order kept. */
  function MissingAmong(raw: RawEnv, keys: seq<string>): (r: seq<string>)
    ensures |r| <= |keys|
    ensures forall k :: k in r <==> k in keys && IsMissing(raw, k)
    decreases |keys|
  {
    if keys == [] then []
    else
      var n := |keys| - 1;
      var init := MissingAmong(raw, keys[..n]);
      assert keys == keys[..n] + [keys[n]];
      if IsMissing(raw, keys[n]) then init + [keys[n]] else init
  }

  /** The missing keys (src/config/env.ts:157-160). */
  function MissingKeys(raw: RawEnv): seq<string> {
    MissingAmong(raw, RequiredEnvKeys)
  }

  /** With nothing set, every key is missing, in declaration order. */
  lemma {:induction false} NothingSetMissesAll(keys: seq<string>)
    ensures MissingAmong(map[], keys) == keys
    decreases |keys|
  {
    if keys != [] {
      NothingSetMissesAll(keys[..|keys| - 1]);
      assert keys == keys[..|keys| - 1] + [keys[|keys| - 1]];
    }
  }

  /** The keys the issues are reported for. */
  function IssueKeys(issues: seq<Issue>): set<string> {
    set i | i in issues :: i.key
  }

  /**
   * A key reported missing is refused by the schema too, except a password of spaces only,
   * which the schema keeps verbatim; the address check is required to refuse the empty
   * string.
   */
  lemma MissingKeyRefused(raw: RawEnv, isEmail: string -> bool, key: string)
    requires !isEmail("")
    requires key in MissingKeys(raw)
    requires key in raw ==> (key != "SMTP_PASS" && key != "IMAP_PASS") || raw[key] == ""
    ensures ParseMailEnv(raw, isEmail).Err?
    ensures key in IssueKeys(ParseMailEnv(raw, isEmail).error)
  {
    var c := CheckKeys(raw, isEmail);
    if key in raw && key != "SMTP_PASS" && key != "IMAP_PASS" {
      assert Trim(raw[key]) == "";
      if key == "SMTP_PORT" || key == "IMAP_PORT" || key == "SMTP_SECURE" || key == "IMAP_SECURE" {
        assert TrimStart(raw[key]) == [];
      }
    }
    RefusedKeyReported(c, key);
  }

  /** A key whose check failed has its issue in the list. */
  lemma RefusedKeyReported(c: Checked, key: string)
    requires key == "AGENTMAIL_EMAIL" ==> c.email.Err? && c.email.error.key == key
    requires key == "SMTP_HOST" ==> c.smtpHost.Err? && c.smtpHost.error.key == key
    requires key == "SMTP_PORT" ==> c.smtpPort.Err? && c.smtpPort.error.key == key
    requires key == "SMTP_SECURE" ==> c.smtpSecure.Err? && c.smtpSecure.error.key == key
    requires key == "SMTP_USER" ==> c.smtpUser.Err? && c.smtpUser.error.key == key
    requires key == "SMTP_PASS" ==> c.smtpPass.Err? && c.smtpPass.error.key == key
    requires key == "IMAP_HOST" ==> c.imapHost.Err? && c.imapHost.error.key == key
    requires key == "IMAP_PORT" ==> c.imapPort.Err? && c.imapPort.error.key == key
    requires key == "IMAP_SECURE" ==> c.imapSecure.Err? && c.imapSecure.error.key == key
    requires key == "IMAP_USER" ==> c.imapUser.Err? && c.imapUser.error.key == key
    requires key == "IMAP_PASS" ==> c.imapPass.Err? && c.imapPass.error.key == key
    requires key in RequiredEnvKeys
    ensures key in IssueKeys(c.Issues())
  {
    var issues := c.Issues();
    var found: Issue :=
      if key == "AGENTMAIL_EMAIL" then c.email.error
      else if key == "SMTP_HOST" then c.smtpHost.error
      else if key == "SMTP_PORT" then c.smtpPort.error
      else if key == "SMTP_SECURE" then c.smtpSecure.error
      else if key == "SMTP_USER" then c.smtpUser.error
      else if key == "SMTP_PASS" then c.smtpPass.error
      else if key == "IMAP_HOST" then c.imapHost.error
      else if key == "IMAP_PORT" then c.imapPort.error
      else if key == "IMAP_SECURE" then c.imapSecure.error
      else if key == "IMAP_USER" then c.imapUser.error
      else c.imapPass.error;
    assert found in issues && found.key == key;
  }

  /** What `validateEnvFile` reports. */
  datatype EnvValidation = EnvValidation(
    isValid: bool,
    envFilePath: Path,
    fileExists: bool,
    missingKeys: seq<string>,
    issues: seq<Issue>)

  /** The environment file's keys, or none when the file is missing. */
  function ReadEnvFile(fs: Fs, dotenv: seq<byte> -> RawEnv, envFile: Path): Result<RawEnv, IoError> {
    match ReadFile(fs, envFile)
    case Err(e) => Err(e)
    case Ok(data) => Ok(dotenv(data))
  }

  /**
   * `validateEnvFile` (src/config/env.ts:142-172): a missing file is parsed as an empty
   * environment; any other read failure propagates.
   */
  function ValidateEnvFile(fs: Fs, dotenv: seq<byte> -> RawEnv, envFile: Path, isEmail: string -> bool): (r: Result<EnvValidation, IoError>)
    ensures r.Err? <==> envFile in fs && fs[envFile] == Dir
    ensures r.Ok? ==> r.value.envFilePath == envFile && (r.value.fileExists <==> envFile in fs)
    ensures r.Ok? ==> var raw := if envFile in fs then dotenv(fs[envFile].data) else map[];
      && r.value.missingKeys == MissingKeys(raw)
      && (r.value.isValid <==> r.value.fileExists && ParseMailEnv(raw, isEmail).Ok?)
      && (r.value.issues == [] <==> ParseMailEnv(raw, isEmail).Ok?)
  {
    var (rawConfig, fileExists) :=
      match ReadFile(fs, envFile)
      case Err(NotFound) => (Ok(map[]), false)
      case Err(e) => (Err(e), true)
      case Ok(data) => (Ok(dotenv(data)), true);
    match rawConfig
    case Err(e) => Err(e)
    case Ok(raw) =>
      var parsed := ParseMailEnv(raw, isEmail);
      Ok(EnvValidation(fileExists && parsed.Ok?, envFile, fileExists, MissingKeys(raw),
                       if parsed.Ok? then [] else parsed.error))
  }

  /** Without an environment file every required key is reported missing and nothing is valid. */
  lemma MissingFileMissesAll(fs: Fs, dotenv: seq<byte> -> RawEnv, envFile: Path, isEmail: string -> bool)
    requires envFile !in fs
    ensures ValidateEnvFile(fs, dotenv, envFile, isEmail) ==
      Ok(EnvValidation(false, envFile, false, RequiredEnvKeys, CheckKeys(map[], isEmail).Issues()))
  {
    NothingSetMissesAll(RequiredEnvKeys);
    EmptyEnvMissesEveryKey(isEmail);
  }

  // ---------------------------------------------------------------- loadMailEnvConfig

  datatype EnvError =
    | EnvNotFound(path: Path)              // "Environment file not found at ..."
    | EnvReadFailed(error: IoError)
    | InvalidEnvironment(issues: seq<Issue>)

  /** `loadMailEnvConfig` (src/config/env.ts:109-132). */
  function LoadMailEnvConfig(fs: Fs, dotenv: seq<byte> -> RawEnv, envFile: Path, isEmail: string -> bool): (r: Result<MailEnvConfig, EnvError>)
    ensures r == Err(EnvNotFound(envFile)) <==> envFile !in fs
    ensures r.Err? && r.error.InvalidEnvironment? ==> r.error.issues != []
    ensures r.Ok? ==> envFile in fs && fs[envFile].File? && Ok(r.value) == ParseMailEnv(dotenv(fs[envFile].data), isEmail)
  {
    match ReadFile(fs, envFile)
    case Err(NotFound) => Err(EnvNotFound(envFile))
    case Err(e) => Err(EnvReadFailed(e))
    case Ok(data) =>
      match ParseMailEnv(dotenv(data), isEmail)
      case Err(issues) => Err(InvalidEnvironment(issues))
      case Ok(c) => Ok(c)
  }

  /** Loading succeeds exactly when validation reports the file valid. */
  lemma LoadAgreesWithValidate(fs: Fs, dotenv: seq<byte> -> RawEnv, envFile: Path, isEmail: string -> bool)
    ensures LoadMailEnvConfig(fs, dotenv, envFile, isEmail).Ok? <==>
      ValidateEnvFile(fs, dotenv, envFile, isEmail).Ok? && ValidateEnvFile(fs, dotenv, envFile, isEmail).value.isValid
  {
  }
}
