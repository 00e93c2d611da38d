/**
 * The `on_recieve` hook (src/hooks/runOnRecieveHook.ts): when the hook script is there,
 * it runs under `bash` with the inherited environment plus `AGENTMAIL_*` variables that
 * describe the message just archived; the hook counts as executed only when the script
 * exits with code 0.
 *
 * Starting the process and waiting for it to close is a function given from outside, from
 * the script path and its environment to how the process ended.
 */
module Hook {
  import opened Wrappers
  import opened Text
  import opened FileSystem
  import opened Records

  type EnvMap = map<string, string>

  /** `stringifyNullable` (src/hooks/runOnRecieveHook.ts:22-28): a missing value is the empty string. */
  function StringifyNullable(value: Option<string>): (r: string)
    ensures value.Some? ==> r == value.value
    ensures value.None? ==> r == ""
  {
    if value.Some? then value.value else ""
  }

  /** The keys the hook sets, in the order they are written. */
  const HookKeys: seq<string> := [
    "AGENTMAIL_HOOK_EVENT", "AGENTMAIL_MAILBOX", "AGENTMAIL_MESSAGE_UID", "AGENTMAIL_MESSAGE_ID",
    "AGENTMAIL_MESSAGE_SUBJECT", "AGENTMAIL_MESSAGE_FROM", "AGENTMAIL_MESSAGE_TO",
    "AGENTMAIL_MESSAGE_SAVED_AT", "AGENTMAIL_MESSAGE_DATE", "AGENTMAIL_MESSAGE_DIR",
    "AGENTMAIL_MESSAGE_METADATA_FILE"]

  /** `RunOnRecieveHookInput`: the mailbox, the archived message's directory and its record. */
  datatype HookInput = HookInput(mailbox: string, messageDir: Path, metadata: MessageMeta)

  /** The variables describing the message (src/hooks/runOnRecieveHook.ts:75-85). */
  function MessageVariables(input: HookInput): (r: EnvMap)
    ensures r.Keys == set k | k in HookKeys
  {
    map[
      "AGENTMAIL_HOOK_EVENT" := "on_recieve",
      "AGENTMAIL_MAILBOX" := input.mailbox,
      "AGENTMAIL_MESSAGE_UID" := IntToString(input.metadata.uid),
      "AGENTMAIL_MESSAGE_ID" := StringifyNullable(input.metadata.messageId),
      "AGENTMAIL_MESSAGE_SUBJECT" := StringifyNullable(input.metadata.subject),
      "AGENTMAIL_MESSAGE_FROM" := JoinWith(input.metadata.from, ","),
      "AGENTMAIL_MESSAGE_TO" := JoinWith(input.metadata.to, ","),
      "AGENTMAIL_MESSAGE_SAVED_AT" := input.metadata.savedAt,
      "AGENTMAIL_MESSAGE_DATE" := StringifyNullable(input.metadata.date),
      "AGENTMAIL_MESSAGE_DIR" := PathString(input.messageDir),
      "AGENTMAIL_MESSAGE_METADATA_FILE" := PathString(input.messageDir + ["metadata.json"])
    ]
  }

  /**
   * `{...process.env, AGENTMAIL_...}` (src/hooks/runOnRecieveHook.ts:73-86): the inherited
   * variables are kept, and the hook's own variables win over inherited ones of the same name.
   */
  function HookEnv(inherited: EnvMap, input: HookInput): (r: EnvMap)
    ensures r.Keys == inherited.Keys + (set k | k in HookKeys)
    ensures forall k :: k in inherited && k !in HookKeys ==> r[k] == inherited[k]
    ensures forall k :: k in MessageVariables(input) ==> r[k] == MessageVariables(input)[k]
  {
    inherited + MessageVariables(input)
  }

  /** How the process ended: `close` with an exit code or a signal, or an `error` event. */
  datatype ExitStatus =
    | Closed(code: Option<int>, signal: Option<string>)
    | SpawnFailed

  datatype HookError =
    | KilledBySignal(signal: string)   // "Hook exited with signal ..."
    | ExitedWith(code: Option<int>)    // "Hook exited with code ..."
    | CouldNotSpawn

  /** What one call does: whether a process was started (with which environment) and the answer. */
  datatype HookRun = HookRun(launched: Option<EnvMap>, result: Result<bool, HookError>)

  /** `runHookProcess`'s `close` handler (src/hooks/runOnRecieveHook.ts:46-59). */
  function HookProcessResult(status: ExitStatus): (r: Result<(), HookError>)
    ensures r.Ok? <==> status.Closed? && status.code == Some(0)
    ensures status.Closed? && status.code != Some(0) && status.signal.Some? ==> r == Err(KilledBySignal(status.signal.value))
    ensures status.Closed? && status.code != Some(0) && status.signal.None? ==> r == Err(ExitedWith(status.code))
    ensures status.SpawnFailed? ==> r == Err(CouldNotSpawn)
  {
    match status
    case SpawnFailed => Err(CouldNotSpawn)
    case Closed(code, signal) =>
      if code == Some(0) then Ok(())
      else if signal.Some? then Err(KilledBySignal(signal.value))
      else Err(ExitedWith(code))
  }

  /**
   * `runOnRecieveHook` (src/hooks/runOnRecieveHook.ts:63-90). `access(path, R_OK)` is
   * modelled as the path being on disk.
   */
  function RunOnRecieveHook(fs: Fs, hookFile: Path, inherited: EnvMap, input: HookInput,
                            run: (Path, EnvMap) -> ExitStatus): (r: HookRun)
    ensures hookFile !in fs <==> r == HookRun(None, Ok(false))
    ensures hookFile in fs ==> r.launched == Some(HookEnv(inherited, input))
    ensures r.result == Ok(true) <==>
      (hookFile in fs && run(hookFile, HookEnv(inherited, input)).Closed?
       && run(hookFile, HookEnv(inherited, input)).code == Some(0))
    ensures r.result.Err? ==> hookFile in fs
  {
    if hookFile !in fs then HookRun(None, Ok(false))
    else
      var env := HookEnv(inherited, input);
      var done := HookProcessResult(run(hookFile, env));
      HookRun(Some(env), if done.Ok? then Ok(true) else Err(done.error))
  }

  // ---------------------------------------------------------------- what the script sees

  /** `AGENTMAIL_MESSAGE_METADATA_FILE` is the message directory followed by `/metadata.json`. */
  lemma MetadataFileInDir(inherited: EnvMap, input: HookInput)
    requires input.messageDir != []
    ensures var env := HookEnv(inherited, input);
      env["AGENTMAIL_MESSAGE_METADATA_FILE"] == env["AGENTMAIL_MESSAGE_DIR"] + "/metadata.json"
  {
    JoinAppend(input.messageDir, "metadata.json", "/");
    assert PathString(input.messageDir + ["metadata.json"]) == PathString(input.messageDir) + "/metadata.json";
  }

  lemma {:induction false} JoinAppend(parts: seq<string>, last: string, sep: string)
    requires parts != []
    ensures JoinWith(parts + [last], sep) == JoinWith(parts, sep) + sep + last
    decreases |parts|
  {
    if |parts| == 1 {
      assert (parts + [last])[1..] == [last];
    } else {
      assert (parts + [last])[1..] == parts[1..] + [last];
      JoinAppend(parts[1..], last, sep);
    }
  }

  /**
   * A script can split `AGENTMAIL_MESSAGE_FROM` / `_TO` on `,` and get the list back, as long
   * as no address holds a comma.
   */
  lemma {:induction false} JoinedListSplitsBack(addresses: seq<string>)
    requires addresses != [] && forall k :: 0 <= k < |addresses| ==> ',' !in addresses[k]
    ensures Split(JoinWith(addresses, ","), {','}) == addresses
    decreases |addresses|
  {
    var x := addresses[0];
    assert forall j :: 0 <= j < |x| ==> x[j] !in {','} by {
      forall j | 0 <= j < |x| ensures x[j] !in {','} { assert x[j] in x; }
    }
    if |addresses| == 1 {
      SplitNoSeparator(x, {','});
    } else {
      var rest := addresses[1..];
      JoinedListSplitsBack(rest);
      assert x + "," + JoinWith(rest, ",") == x + [','] + JoinWith(rest, ",");
      SplitAtSeparator(x, ',', JoinWith(rest, ","), {','});
      assert [x] + rest == addresses;
    }
  }

  /** The hook test: uid 42 and subject "Hook me" reach the script as "42" and "Hook me". */
  lemma HookExample(inherited: EnvMap, input: HookInput)
    requires input.metadata.uid == 42 && input.metadata.subject == Some("Hook me")
    ensures var env := HookEnv(inherited, input);
      && env["AGENTMAIL_HOOK_EVENT"] == "on_recieve"
      && env["AGENTMAIL_MESSAGE_UID"] == "42"
      && env["AGENTMAIL_MESSAGE_SUBJECT"] == "Hook me"
  {
    EventVariable(inherited, input);
    UidVariable(inherited, input);
    SubjectVariable(inherited, input);
    assert IntToString(42) == "42" by {
      assert NatToString(42) == NatToString(4) + [DigitChar(2)];
    }
  }

  /** Whatever the inherited environment holds, the event name is `on_recieve`. */
  lemma EventVariable(inherited: EnvMap, input: HookInput)
    ensures HookEnv(inherited, input)["AGENTMAIL_HOOK_EVENT"] == "on_recieve"
  {
    assert "AGENTMAIL_HOOK_EVENT" in MessageVariables(input);
  }

  /** Whatever the inherited environment holds, the uid is its decimal text. */
  lemma UidVariable(inherited: EnvMap, input: HookInput)
    ensures HookEnv(inherited, input)["AGENTMAIL_MESSAGE_UID"] == IntToString(input.metadata.uid)
  {
    assert "AGENTMAIL_MESSAGE_UID" in MessageVariables(input);
  }

  /** Whatever the inherited environment holds, a missing subject is the empty string. */
  lemma SubjectVariable(inherited: EnvMap, input: HookInput)
    ensures HookEnv(inherited, input)["AGENTMAIL_MESSAGE_SUBJECT"] == StringifyNullable(input.metadata.subject)
  {
    assert "AGENTMAIL_MESSAGE_SUBJECT" in MessageVariables(input);
  }
}
