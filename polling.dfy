/**
 * The polling settings (src/config/polling.ts): the schema a polling config must pass,
 * the defaults a partial config is completed with, and the `polling.json` file they are
 * written to and read back from.
 *
 * A partial config is the object the command line builds: each of its two keys may be
 * missing, present with the value `undefined`, or present with a value. Object spread
 * copies a key that is present even when its value is `undefined`, which the schema then
 * refuses as missing; `ApplyPollingDefaultsAsWritten` keeps that behaviour and
 * `ApplyPollingDefaults` is the completion the defaults evidently intend.
 */
module Polling {
  import opened Wrappers
  import opened Text
  import opened FileSystem
  import opened Records

  /** A key of a partial object: missing, present but `undefined`, or present with a value. */
  datatype Field<T> = Absent | PresentUndefined | Present(value: T)

  /** `Partial<PollingConfig>`; the values are whatever the caller put there. */
  datatype PartialPolling = PartialPolling(mailbox: Field<Json>, intervalSeconds: Field<Json>)

  /** Why a config could not be produced or read. */
  datatype PollingError =
    | ConfigNotFound(path: Path)           // "Polling config not found at ..."
    | ReadFailed(error: IoError)           // reading the file failed other than by absence, propagated
    | WriteFailed(error: IoError)          // creating the directory or writing the file failed, propagated
    | MalformedJson                        // `JSON.parse` threw
    | NotAnObject                          // the schema wants an object
    | InvalidConfig(keys: seq<string>)     // the keys whose value the schema refused, in order

  const DefaultMailbox: string := "INBOX"
  const DefaultIntervalSeconds: int := 60

  /** `DEFAULT_POLLING_CONFIG` (src/config/polling.ts:12-15). */
  const DefaultPollingConfig: PollingConfig := PollingConfig(DefaultMailbox, DefaultIntervalSeconds)

  /** What the schema accepts: a mailbox already trimmed and not empty, a whole number of seconds of at least 1. */
  predicate IsPollingConfig(c: PollingConfig) {
    c.mailbox != "" && Trim(c.mailbox) == c.mailbox && c.intervalSeconds >= 1
  }

  /** `z.string().trim().min(1)` on the `mailbox` key; `None` is a missing or `undefined` value. */
  predicate MailboxAccepted(v: Option<Json>) {
    v.Some? && v.value.JStr? && Trim(v.value.s) != ""
  }

  /** `z.number().int().min(1)` on the `intervalSeconds` key. */
  predicate IntervalAccepted(v: Option<Json>) {
    v.Some? && v.value.JInt? && v.value.n >= 1
  }

  /**
   * `pollingSchema` (src/config/polling.ts:7-10) on the values of the two keys: the mailbox
   * is stored trimmed, and every refused key is reported.
   */
  function ParseFields(mailbox: Option<Json>, interval: Option<Json>): (r: Result<PollingConfig, PollingError>)
    ensures r.Ok? <==> MailboxAccepted(mailbox) && IntervalAccepted(interval)
    ensures r.Ok? ==> IsPollingConfig(r.value)
    ensures r.Ok? ==> r.value.mailbox == Trim(mailbox.value.s) && r.value.intervalSeconds == interval.value.n
    ensures r.Err? ==>
      && r.error.InvalidConfig? && r.error.keys != []
      && ("mailbox" in r.error.keys <==> !MailboxAccepted(mailbox))
      && ("intervalSeconds" in r.error.keys <==> !IntervalAccepted(interval))
  {
    if MailboxAccepted(mailbox) && IntervalAccepted(interval) then
      TrimIdempotent(mailbox.value.s);
      Ok(PollingConfig(Trim(mailbox.value.s), interval.value.n))
    else
      Err(InvalidConfig((if MailboxAccepted(mailbox) then [] else ["mailbox"]) +
                        (if IntervalAccepted(interval) then [] else ["intervalSeconds"])))
  }

  /** `parsePollingConfig` (src/config/polling.ts:17-19): unknown keys are dropped. */
  function ParsePollingConfig(raw: Json): (r: Result<PollingConfig, PollingError>)
    ensures r.Ok? <==> raw.JObj? && MailboxAccepted(Member(raw, "mailbox")) && IntervalAccepted(Member(raw, "intervalSeconds"))
    ensures r.Ok? ==> IsPollingConfig(r.value)
  {
    if !raw.JObj? then Err(NotAnObject)
    else ParseFields(Member(raw, "mailbox"), Member(raw, "intervalSeconds"))
  }

  /** The JSON object `writePollingConfig` stores. */
  function PollingJson(c: PollingConfig): Json {
    JObj(map["mailbox" := JStr(c.mailbox), "intervalSeconds" := JInt(c.intervalSeconds)])
  }

  /** The schema reads a stored config back unchanged exactly when it is one the schema produces. */
  lemma PollingJsonParses(c: PollingConfig)
    ensures ParsePollingConfig(PollingJson(c)).Ok? <==> Trim(c.mailbox) != "" && c.intervalSeconds >= 1
    ensures IsPollingConfig(c) ==> ParsePollingConfig(PollingJson(c)) == Ok(c)
  {
    var j := PollingJson(c);
    assert Member(j, "mailbox") == Some(JStr(c.mailbox));
    assert Member(j, "intervalSeconds") == Some(JInt(c.intervalSeconds));
  }

  /** The value object spread gives a key: the default when missing, the partial's value when present. */
  function Spread(f: Field<Json>, default: Json): (r: Option<Json>)
    ensures f.Absent? ==> r == Some(default)
    ensures f.Present? ==> r == Some(f.value)
    ensures f.PresentUndefined? ==> r.None?
  {
    match f
    case Absent => Some(default)
    case PresentUndefined => None
    case Present(v) => Some(v)
  }

  /**
   * `applyPollingDefaults` as written (src/config/polling.ts:21-26): `{...DEFAULT, ...partial}`
   * then the schema, so a key present with `undefined` replaces its default.
   */
  function ApplyPollingDefaultsAsWritten(partial: PartialPolling): Result<PollingConfig, PollingError> {
    ParseFields(Spread(partial.mailbox, JStr(DefaultMailbox)), Spread(partial.intervalSeconds, JInt(DefaultIntervalSeconds)))
  }

  /** A key present with `undefined` counts as missing. */
  function Settle(f: Field<Json>): (r: Field<Json>)
    ensures r != PresentUndefined
    ensures f.Present? ==> r == f
  {
    if f.PresentUndefined? then Absent else f
  }

  /** `applyPollingDefaults` with `undefined` values falling back to the defaults. */
  function ApplyPollingDefaults(partial: PartialPolling): Result<PollingConfig, PollingError> {
    ApplyPollingDefaultsAsWritten(PartialPolling(Settle(partial.mailbox), Settle(partial.intervalSeconds)))
  }

  /**
   * The command line's `receive setup --mailbox Work` without `--interval` passes
   * `{mailbox: "Work", intervalSeconds: undefined}`: as written the schema refuses it for a
   * missing interval, while the corrected completion keeps the default of 60 seconds.
   */
  lemma UndefinedIntervalRefused(m: string)
    requires Trim(m) != ""
    ensures ApplyPollingDefaultsAsWritten(PartialPolling(Present(JStr(m)), PresentUndefined)) == Err(InvalidConfig(["intervalSeconds"]))
    ensures ApplyPollingDefaults(PartialPolling(Present(JStr(m)), PresentUndefined)) == Ok(PollingConfig(Trim(m), DefaultIntervalSeconds))
  {
    var none: seq<string> := [];
    assert none + ["intervalSeconds"] == ["intervalSeconds"];
  }

  /** `applyPollingDefaults({})` is the default config. */
  lemma DefaultsApplied(inbox: string)
    requires inbox == DefaultMailbox
    ensures ApplyPollingDefaults(PartialPolling(Absent, Absent)) == Ok(DefaultPollingConfig)
    ensures ApplyPollingDefaultsAsWritten(PartialPolling(Absent, Absent)) == Ok(DefaultPollingConfig)
  {
    assert !IsWhitespace(inbox[0]) && !IsWhitespace(inbox[|inbox| - 1]);
    TrimNoop(inbox);
  }

  /**
   * Completion never fails for a missing or `undefined` key: each key is either supplied
   * and must pass the schema, or takes its default; a supplied value overrides the default.
   */
  lemma ApplyPollingDefaultsSpec(partial: PartialPolling, inbox: string)
    requires inbox == DefaultMailbox
    ensures var r := ApplyPollingDefaults(partial);
      && (r.Ok? <==>
            (partial.mailbox.Present? ==> MailboxAccepted(Some(partial.mailbox.value))) &&
            (partial.intervalSeconds.Present? ==> IntervalAccepted(Some(partial.intervalSeconds.value))))
      && (r.Ok? ==> IsPollingConfig(r.value))
      && (r.Ok? ==> r.value.mailbox == if partial.mailbox.Present? then Trim(partial.mailbox.value.s) else DefaultMailbox)
      && (r.Ok? ==> r.value.intervalSeconds == if partial.intervalSeconds.Present? then partial.intervalSeconds.value.n else DefaultIntervalSeconds)
  {
    assert !IsWhitespace(inbox[0]) && !IsWhitespace(inbox[|inbox| - 1]);
    TrimNoop(inbox);
  }

  // ---------------------------------------------------------------- the file

  /** `writePollingConfig` succeeded: the new disk and the config it persisted. */
  datatype Written = Written(disk: Disk, config: PollingConfig)

  /**
   * `writePollingConfig` (src/config/polling.ts:28-36): completes the partial config,
   * creates the parent directory and writes the config as JSON; the config returned is the
   * one written.
   */
  function WritePollingConfig(d: Disk, codec: JsonCodec, partial: PartialPolling, pollingFile: Path): (r: Result<Written, PollingError>)
    requires WellFormed(d.fs)
    ensures r.Ok? ==> ApplyPollingDefaults(partial) == Ok(r.value.config)
    ensures r.Ok? ==> WellFormed(r.value.disk.fs)
    ensures r.Ok? ==> pollingFile in r.value.disk.fs && r.value.disk.fs[pollingFile] == File(codec.encode(PollingJson(r.value.config)))
    ensures ApplyPollingDefaults(partial).Err? ==> r == Err(ApplyPollingDefaults(partial).error)
    ensures ApplyPollingDefaults(partial).Ok? && r.Err? ==> r.error.WriteFailed?
  {
    match ApplyPollingDefaults(partial)
    case Err(e) => Err(e)
    case Ok(config) =>
      match MkdirAll(d, Parent(pollingFile))
      case Err(e) => Err(WriteFailed(e))
      case Ok(d1) =>
        match WriteFile(d1, pollingFile, codec.encode(PollingJson(config)))
        case Err(e) => Err(WriteFailed(e))
        case Ok(d2) => Ok(Written(d2, config))
  }

  /**
   * `readPollingConfig` (src/config/polling.ts:38-58): a missing file is reported as not
   * found, any other read failure and a `JSON.parse` failure propagate, and the content must
   * pass the schema.
   */
  function ReadPollingConfig(fs: Fs, codec: JsonCodec, pollingFile: Path): (r: Result<PollingConfig, PollingError>)
    ensures r == Err(ConfigNotFound(pollingFile)) <==> pollingFile !in fs
    ensures r.Ok? ==> IsPollingConfig(r.value)
    ensures r.Ok? ==> pollingFile in fs && fs[pollingFile].File?
  {
    match ReadFile(fs, pollingFile)
    case Err(NotFound) => Err(ConfigNotFound(pollingFile))
    case Err(e) => Err(ReadFailed(e))
    case Ok(data) =>
      match codec.decode(data)
      case None => Err(MalformedJson)
      case Some(j) => ParsePollingConfig(j)
  }

  /**
   * `tryReadPollingConfig` (src/config/polling.ts:60-73): `null` exactly for a missing
   * file; any other failure propagates.
   */
  function TryReadPollingConfig(fs: Fs, codec: JsonCodec, pollingFile: Path): (r: Result<Option<PollingConfig>, PollingError>)
    ensures r == Ok(None) <==> pollingFile !in fs
    ensures r.Ok? && r.value.Some? <==> ReadPollingConfig(fs, codec, pollingFile).Ok?
    ensures r.Ok? && r.value.Some? ==> Ok(r.value.value) == ReadPollingConfig(fs, codec, pollingFile)
    ensures r.Err? ==> r.error != ConfigNotFound(pollingFile) && Err(r.error) == ReadPollingConfig(fs, codec, pollingFile)
  {
    match ReadPollingConfig(fs, codec, pollingFile)
    case Ok(c) => Ok(Some(c))
    case Err(ConfigNotFound(p)) => if p == pollingFile then Ok(None) else Err(ConfigNotFound(p))
    case Err(e) => Err(e)
  }

  /** A config written through a round-tripping codec reads back as the config returned. */
  lemma WriteThenRead(d: Disk, codec: JsonCodec, partial: PartialPolling, pollingFile: Path)
    requires WellFormed(d.fs) && RoundTrips(codec)
    requires WritePollingConfig(d, codec, partial, pollingFile).Ok?
    ensures var w := WritePollingConfig(d, codec, partial, pollingFile).value;
      ReadPollingConfig(w.disk.fs, codec, pollingFile) == Ok(w.config)
  {
    var w := WritePollingConfig(d, codec, partial, pollingFile).value;
    assert codec.decode(codec.encode(PollingJson(w.config))) == Some(PollingJson(w.config));
    PollingJsonParses(w.config);
  }
}
