/**
 * One receive cycle (src/receive/receiveOnce.ts): the mailbox is chosen, the mail
 * environment is loaded, the unseen messages are searched, and each one is fetched, parsed,
 * archived and only then flagged `\Seen` (section 2.3.2 of RFC 3501), with four counters
 * kept along the way.
 *
 * The IMAP session and the MIME parser are given from outside as a `Mailserver` value: what
 * the search returns, what each fetch returns, what the parser makes of a source, and
 * whether adding the `\Seen` flag to a message succeeds.
 */
module ReceiveCycle {
  import opened Wrappers
  import opened Text
  import opened FileSystem
  import opened Records
  import opened ArchiveNaming
  import opened ReceiveArchive
  import opened Polling
  import opened Env

  // ---------------------------------------------------------------- the mailbox

  /**
   * `resolveMailboxForReceive` (src/receive/receiveOnce.ts:22-29): an explicit mailbox that
   * is not blank is used as given; otherwise the configured one, or `INBOX` when there is no
   * polling config. A polling config that cannot be read is an error.
   */
  function ResolveMailboxForReceive(fs: Fs, codec: JsonCodec, pollingFile: Path, explicit: Option<string>): (r: Result<string, PollingError>)
    ensures explicit.Some? && Trim(explicit.value) != "" ==> r == Ok(explicit.value)
    ensures r.Ok? ==> Trim(r.value) != ""
    ensures !(explicit.Some? && Trim(explicit.value) != "") ==>
      && (pollingFile !in fs ==> r == Ok(DefaultMailbox))
      && (pollingFile in fs ==> (r.Ok? <==> ReadPollingConfig(fs, codec, pollingFile).Ok?))
      && (pollingFile in fs && r.Ok? ==> r.value == ReadPollingConfig(fs, codec, pollingFile).value.mailbox)
  {
    if explicit.Some? && Trim(explicit.value) != "" then Ok(explicit.value)
    else
      match TryReadPollingConfig(fs, codec, pollingFile)
      case Err(e) => Err(e)
      case Ok(None) => Ok(DefaultMailbox)
      case Ok(Some(c)) => Ok(c.mailbox)
  }

  // ---------------------------------------------------------------- one fetched message

  /** What `fetchedMessage.flags` holds: a `Set`, an array, or something else. */
  datatype RawFlags = FlagSet(items: seq<string>) | FlagArray(items: seq<string>) | NotACollection

  /** `normalizeFlags` (src/receive/receiveOnce.ts:31-41). */
  function NormalizeFlags(raw: RawFlags): (r: seq<string>)
    ensures raw.NotACollection? ==> r == []
    ensures !raw.NotACollection? ==> r == raw.items
  {
    match raw
    case FlagSet(items) => items
    case FlagArray(items) => items
    case NotACollection => []
  }

  /** `fetchedMessage.uid`: a finite number, a non-finite number, or not a number at all. */
  datatype UidField = UidNumber(n: int) | UidNonFinite | UidNotANumber

  /**
   * The uid a message is saved under (src/receive/receiveOnce.ts:120-126): the fetched uid
   * when it is a number, the sequence id otherwise; a non-finite uid is refused.
   */
  function ResolveUid(sequenceId: int, uid: UidField): (r: Option<int>)
    ensures r.None? <==> uid.UidNonFinite?
    ensures uid.UidNumber? ==> r == Some(uid.n)
    ensures uid.UidNotANumber? ==> r == Some(sequenceId)
  {
    match uid
    case UidNumber(n) => Some(n)
    case UidNonFinite => None
    case UidNotANumber => Some(sequenceId)
  }

  /** `fetchedMessage.source`: missing, bytes `toBuffer` accepts, or a payload it refuses. */
  datatype Source = NoSource | SourceBytes(bytes: seq<byte>) | UnsupportedSource

  /** What `fetchOne` gives: `false`, a thrown error, or the message. */
  datatype Fetched =
    | FetchedFalse
    | FetchThrew
    | FetchedMessage(uid: UidField, source: Source, flags: RawFlags)

  /** What `search({ seen: false })` gives: `false`, the sequence ids, or a thrown error. */
  datatype SearchResult = SearchFalse | SearchIds(ids: seq<int>) | SearchFailed

  /**
   * The IMAP session and the parser. `search` covers connecting and locking the mailbox
   * too; `parse` is `simpleParser`, `None` when it throws; `addSeen` tells whether
   * `messageFlagsAdd(id, ["\\Seen"])` succeeds.
   */
  datatype Mailserver = Mailserver(
    search: string -> SearchResult,
    fetch: int -> Fetched,
    parse: seq<byte> -> Option<ParsedMail>,
    addSeen: int -> bool)

  /**
   * Everything the loop body does before `saveMessage` (src/receive/receiveOnce.ts:105-133):
   * the input to save, or `None` when the message is counted failed before saving.
   */
  function PrepareSave(server: Mailserver, sequenceId: int): (r: Option<SaveInput>)
    ensures r.Some? <==>
      && server.fetch(sequenceId).FetchedMessage?
      && server.fetch(sequenceId).source.SourceBytes?
      && server.parse(server.fetch(sequenceId).source.bytes).Some?
      && !server.fetch(sequenceId).uid.UidNonFinite?
    ensures r.Some? ==> var m := server.fetch(sequenceId);
      && r.value.raw == m.source.bytes
      && Some(r.value.parsed) == server.parse(m.source.bytes)
      && Some(r.value.uid) == ResolveUid(sequenceId, m.uid)
      && r.value.flags == NormalizeFlags(m.flags)
  {
    match server.fetch(sequenceId)
    case FetchedFalse => None
    case FetchThrew => None
    case FetchedMessage(uid, source, flags) =>
      match source
      case NoSource => None
      case UnsupportedSource => None
      case SourceBytes(raw) =>
        match server.parse(raw)
        case None => None
        case Some(parsed) =>
          match ResolveUid(sequenceId, uid)
          case None => None
          case Some(u) => Some(SaveInput(u, raw, parsed, NormalizeFlags(flags)))
  }

  // ---------------------------------------------------------------- the loop

  /** How one message ended. */
  datatype Outcome =
    | NotFetched               // no usable source, parse failure or bad uid: nothing saved
    | SaveFailed(error: SaveError)
    | SeenFailed(dir: Path)    // archived, but adding `\Seen` threw: counted failed
    | Stored(dir: Path)        // archived and flagged: counted saved
  {
    predicate Archived() { SeenFailed? || Stored? }
  }

  /** The archive writes and the flag updates, in the order they happen. */
  datatype Event = Saved(id: int, dir: Path) | SeenAdded(id: int)

  function OutcomeEvents(id: int, o: Outcome): seq<Event> {
    match o
    case NotFetched => []
    case SaveFailed(_) => []
    case SeenFailed(dir) => [Saved(id, dir)]
    case Stored(dir) => [Saved(id, dir), SeenAdded(id)]
  }

  /** The events of a run, message after message. */
  function Trace(ids: seq<int>, outcomes: seq<Outcome>): seq<Event>
    requires |ids| == |outcomes|
  {
    if ids == [] then []
    else
      var n := |ids| - 1;
      Trace(ids[..n], outcomes[..n]) + OutcomeEvents(ids[n], outcomes[n])
  }

  function CountStored(outcomes: seq<Outcome>): (n: nat)
    ensures n <= |outcomes|
  {
    if outcomes == [] then 0
    else CountStored(outcomes[..|outcomes| - 1]) + (if outcomes[|outcomes| - 1].Stored? then 1 else 0)
  }

  /** The outcome of a message is the one its fetch, parse and flag results lead to. */
  predicate OutcomeAgrees(server: Mailserver, id: int, o: Outcome) {
    && (o.NotFetched? <==> PrepareSave(server, id).None?)
    && (o.Stored? ==> server.addSeen(id))
    && (o.SeenFailed? ==> !server.addSeen(id))
  }

  /** `saveMessage` with only what the loop needs of its contract. */
  method ArchiveOne(d: Disk, codec: JsonCodec, decodeUtf8: seq<byte> -> string, messagesDir: Path, now: string, input: SaveInput)
    returns (d': Disk, r: Result<Path, SaveError>)
    requires WellFormed(d.fs) && IsIsoTimestamp(now)
    ensures WellFormed(d'.fs) && Extends(d.fs, d'.fs)
    ensures r.Ok? ==> r.value + ["metadata.json"] in d'.fs
    ensures input.parsed.date.InvalidDateValue? ==> r.Err?
  {
    var saved;
    d', saved := SaveMessage(d, codec, decodeUtf8, messagesDir, now, input);
    if saved.Err? {
      return d', Err(saved.error);
    }
    return d', Ok(saved.value.messageDir);
  }

  /**
   * The body of the loop for one sequence id (src/receive/receiveOnce.ts:104-142): fetch and
   * parse, save, and only after the save add `\Seen`. `events` are the effects in the order
   * they happen. A save that fails keeps whatever it wrote before failing: the loop only
   * counts the failure.
   */
  method HandleMessage(d: Disk, codec: JsonCodec, decodeUtf8: seq<byte> -> string, messagesDir: Path,
                       now: string, server: Mailserver, id: int)
    returns (d': Disk, outcome: Outcome, events: seq<Event>)
    requires WellFormed(d.fs) && IsIsoTimestamp(now)
    ensures WellFormed(d'.fs) && Extends(d.fs, d'.fs)
    ensures OutcomeAgrees(server, id, outcome)
    ensures outcome.Archived() ==> outcome.dir + ["metadata.json"] in d'.fs
    ensures outcome.NotFetched? ==> d' == d
    ensures PrepareSave(server, id).Some? && PrepareSave(server, id).value.parsed.date.InvalidDateValue? ==> outcome.SaveFailed?
    ensures events == OutcomeEvents(id, outcome)
  {
    d', events := d, [];
    var input := PrepareSave(server, id);
    if input.None? {
      return d', NotFetched, events;
    }
    var r;
    d', r := ArchiveOne(d, codec, decodeUtf8, messagesDir, now, input.value);
    if r.Err? {
      return d', SaveFailed(r.error), events;
    }
    events := events + [Saved(id, r.value)];
    if !server.addSeen(id) {
      return d', SeenFailed(r.value), events;
    }
    events := events + [SeenAdded(id)];
    outcome := Stored(r.value);
  }

  /** Every outcome agrees with the server's answers for its id. */
  predicate AllAgree(server: Mailserver, ids: seq<int>, outcomes: seq<Outcome>)
    requires |ids| == |outcomes|
  {
    ids != [] ==>
      var n := |ids| - 1;
      AllAgree(server, ids[..n], outcomes[..n]) && OutcomeAgrees(server, ids[n], outcomes[n])
  }

  lemma {:induction false} AllAgreeMeans(server: Mailserver, ids: seq<int>, outcomes: seq<Outcome>)
    requires |ids| == |outcomes| && AllAgree(server, ids, outcomes)
    ensures forall j :: 0 <= j < |ids| ==> OutcomeAgrees(server, ids[j], outcomes[j])
    decreases |ids|
  {
    if ids != [] {
      var n := |ids| - 1;
      AllAgreeMeans(server, ids[..n], outcomes[..n]);
      assert forall j :: 0 <= j < n ==> ids[..n][j] == ids[j] && outcomes[..n][j] == outcomes[j];
    }
  }

  /** Every archived outcome's `metadata.json` is in `fs`. */
  predicate AllArchived(fs: Fs, outcomes: seq<Outcome>) {
    forall o :: o in outcomes && o.Archived() ==> o.dir + ["metadata.json"] in fs
  }

  /** Growing the disk and archiving one more outcome keeps every archived record on disk. */
  lemma ArchivedStep(fs: Fs, fs': Fs, outcomes: seq<Outcome>, o: Outcome)
    requires AllArchived(fs, outcomes) && Extends(fs, fs')
    requires o.Archived() ==> o.dir + ["metadata.json"] in fs'
    ensures AllArchived(fs', outcomes + [o])
  {
  }

  lemma TraceAppend(ids: seq<int>, outcomes: seq<Outcome>, id: int, o: Outcome)
    requires |ids| == |outcomes|
    ensures Trace(ids + [id], outcomes + [o]) == Trace(ids, outcomes) + OutcomeEvents(id, o)
  {
    assert (ids + [id])[..|ids|] == ids;
    assert (outcomes + [o])[..|outcomes|] == outcomes;
  }

  lemma CountStoredAppend(outcomes: seq<Outcome>, o: Outcome)
    ensures CountStored(outcomes + [o]) == CountStored(outcomes) + (if o.Stored? then 1 else 0)
  {
    assert (outcomes + [o])[..|outcomes|] == outcomes;
  }

  /** The counters, outcomes and events after the messages `ids` have been handled. */
  predicate Tally(server: Mailserver, ids: seq<int>, saved: nat, seenMarked: nat, failed: nat,
                  outcomes: seq<Outcome>, events: seq<Event>)
  {
    && |outcomes| == |ids|
    && saved + failed == |ids| && saved == seenMarked
    && saved == CountStored(outcomes)
    && AllAgree(server, ids, outcomes)
    && events == Trace(ids, outcomes)
  }

  /** One more message handled keeps the tally. */
  lemma TallyStep(server: Mailserver, ids: seq<int>, saved: nat, seenMarked: nat, failed: nat,
                  outcomes: seq<Outcome>, events: seq<Event>, id: int, o: Outcome, step: seq<Event>)
    requires Tally(server, ids, saved, seenMarked, failed, outcomes, events)
    requires OutcomeAgrees(server, id, o) && step == OutcomeEvents(id, o)
    ensures var s := if o.Stored? then 1 else 0;
      Tally(server, ids + [id], saved + s, seenMarked + s, failed + 1 - s, outcomes + [o], events + step)
  {
    TraceAppend(ids, outcomes, id, o);
    CountStoredAppend(outcomes, o);
    assert (ids + [id])[..|ids|] == ids;
    assert (outcomes + [o])[..|outcomes|] == outcomes;
  }

  /** The loop's invariant: the disk only grew, and the tally and archive match the ids handled. */
  predicate Progress(d: Disk, d': Disk, server: Mailserver, ids: seq<int>, saved: nat, seenMarked: nat, failed: nat,
                     outcomes: seq<Outcome>, events: seq<Event>)
  {
    && WellFormed(d'.fs) && Extends(d.fs, d'.fs)
    && Tally(server, ids, saved, seenMarked, failed, outcomes, events)
    && AllArchived(d'.fs, outcomes)
  }

  lemma ProgressAppend(d: Disk, d': Disk, d1: Disk, server: Mailserver, ids: seq<int>, id: int, saved: nat, seenMarked: nat,
                       failed: nat, outcomes: seq<Outcome>, events: seq<Event>, o: Outcome, step: seq<Event>)
    requires Progress(d, d', server, ids, saved, seenMarked, failed, outcomes, events)
    requires WellFormed(d1.fs) && Extends(d'.fs, d1.fs)
    requires OutcomeAgrees(server, id, o) && step == OutcomeEvents(id, o)
    requires o.Archived() ==> o.dir + ["metadata.json"] in d1.fs
    ensures var s := if o.Stored? then 1 else 0;
      Progress(d, d1, server, ids + [id], saved + s, seenMarked + s, failed + 1 - s, outcomes + [o], events + step)
  {
    ExtendsTrans(d.fs, d'.fs, d1.fs);
    ArchivedStep(d'.fs, d1.fs, outcomes, o);
    TallyStep(server, ids, saved, seenMarked, failed, outcomes, events, id, o, step);
  }

  lemma ProgressStep(d: Disk, d': Disk, d1: Disk, server: Mailserver, ids: seq<int>, i: nat, saved: nat, seenMarked: nat,
                     failed: nat, outcomes: seq<Outcome>, events: seq<Event>, o: Outcome, step: seq<Event>)
    requires i < |ids| && Progress(d, d', server, ids[..i], saved, seenMarked, failed, outcomes, events)
    requires WellFormed(d1.fs) && Extends(d'.fs, d1.fs)
    requires OutcomeAgrees(server, ids[i], o) && step == OutcomeEvents(ids[i], o)
    requires o.Archived() ==> o.dir + ["metadata.json"] in d1.fs
    ensures o.Stored? ==>
      Progress(d, d1, server, ids[..i + 1], saved + 1, seenMarked + 1, failed, outcomes + [o], events + step)
    ensures !o.Stored? ==>
      Progress(d, d1, server, ids[..i + 1], saved, seenMarked, failed + 1, outcomes + [o], events + step)
  {
    assert ids[..i + 1] == ids[..i] + [ids[i]];
    ProgressAppend(d, d', d1, server, ids[..i], ids[i], saved, seenMarked, failed, outcomes, events, o, step);
  }

  /**
   * The loop over the unseen sequence ids (src/receive/receiveOnce.ts:97-143). Every id is
   * counted once, as saved or as failed; a message is flagged `\Seen` only after it was
   * archived, and counted saved only when the flag was added. `clock(i)` is the time the
   * `i`-th message is saved at.
   */
  method ProcessUnseen(d: Disk, codec: JsonCodec, decodeUtf8: seq<byte> -> string, messagesDir: Path,
                       clock: nat -> string, server: Mailserver, ids: seq<int>)
    returns (d': Disk, found: nat, saved: nat, seenMarked: nat, failed: nat, outcomes: seq<Outcome>, events: seq<Event>)
    requires WellFormed(d.fs)
    requires forall i: nat :: IsIsoTimestamp(clock(i))
    ensures WellFormed(d'.fs) && Extends(d.fs, d'.fs)
    ensures found == |ids| && |outcomes| == |ids|
    ensures saved + failed == found && saved == seenMarked
    ensures saved == CountStored(outcomes)
    ensures forall i :: 0 <= i < |ids| ==> OutcomeAgrees(server, ids[i], outcomes[i])
    ensures forall i :: 0 <= i < |ids| && outcomes[i].Archived() ==> outcomes[i].dir + ["metadata.json"] in d'.fs
    ensures events == Trace(ids, outcomes)
  {
    found := |ids|;
    d' := d;
    saved, seenMarked, failed := 0, 0, 0;
    outcomes, events := [], [];
    for i := 0 to |ids|
      invariant Progress(d, d', server, ids[..i], saved, seenMarked, failed, outcomes, events)
    {
      var d1, outcome, step := HandleMessage(d', codec, decodeUtf8, messagesDir, clock(i), server, ids[i]);
      ProgressStep(d, d', d1, server, ids, i, saved, seenMarked, failed, outcomes, events, outcome, step);
      d' := d1;
      if outcome.Stored? {
        saved := saved + 1;
        seenMarked := seenMarked + 1;
      } else {
        failed := failed + 1;
      }
      events := events + step;
      outcomes := outcomes + [outcome];
    }
    assert ids[..|ids|] == ids;
    AllAgreeMeans(server, ids, outcomes);
  }

  /**
   * In the trace, every `\Seen` flag comes right after the archive write of the same
   * message.
   */
  lemma {:induction false} SeenOnlyAfterSave(ids: seq<int>, outcomes: seq<Outcome>, k: nat)
    requires |ids| == |outcomes|
    requires k < |Trace(ids, outcomes)| && Trace(ids, outcomes)[k].SeenAdded?
    ensures k > 0 && Trace(ids, outcomes)[k - 1].Saved?
    ensures Trace(ids, outcomes)[k - 1].id == Trace(ids, outcomes)[k].id
    decreases |ids|
  {
    var n := |ids| - 1;
    var init := Trace(ids[..n], outcomes[..n]);
    if k < |init| {
      SeenOnlyAfterSave(ids[..n], outcomes[..n], k);
    } else {
      assert outcomes[n].Stored? && k == |init| + 1;
    }
  }

  /** Counting `saved` is counting the messages that end with `\Seen` added. */
  lemma {:induction false} SavedAreSeen(ids: seq<int>, outcomes: seq<Outcome>)
    requires |ids| == |outcomes|
    ensures CountStored(outcomes) == |set k | 0 <= k < |Trace(ids, outcomes)| && Trace(ids, outcomes)[k].SeenAdded?|
    decreases |ids|
  {
    if ids != [] {
      var n := |ids| - 1;
      var init := Trace(ids[..n], outcomes[..n]);
      var t := Trace(ids, outcomes);
      SavedAreSeen(ids[..n], outcomes[..n]);
      assert outcomes[..n] == outcomes[..|outcomes| - 1];
      var before := set k | 0 <= k < |init| && init[k].SeenAdded?;
      var after := set k | 0 <= k < |t| && t[k].SeenAdded?;
      if outcomes[n].Stored? {
        assert after == before + {|init| + 1};
      } else {
        assert after == before;
      }
    }
  }

  // ---------------------------------------------------------------- receiveOnce

  datatype ReceiveError =
    | MailboxUnresolved(pollingError: PollingError)
    | EnvUnavailable(envError: EnvError)
    | SessionFailed    // connecting, locking the mailbox or searching threw

  /** `ReceiveOnceResult`. */
  datatype ReceiveSummary = ReceiveSummary(mailbox: string, found: nat, saved: nat, seenMarked: nat, failed: nat)

  /** The ids the loop runs over: none when the search returns `false`. */
  function SearchedIds(s: SearchResult): seq<int>
    requires !s.SearchFailed?
  {
    if s.SearchIds? then s.ids else []
  }

  /**
   * `receiveOnce` (src/receive/receiveOnce.ts:71-161): the mailbox is resolved first, the
   * environment loaded second, and nothing is written unless both succeed and the search
   * does.
   */
  method ReceiveOnce(d: Disk, codec: JsonCodec, decodeUtf8: seq<byte> -> string,
                     dotenv: seq<byte> -> RawEnv, isEmail: string -> bool,
                     pollingFile: Path, envFile: Path, messagesDir: Path,
                     clock: nat -> string, server: Mailserver, explicitMailbox: Option<string>)
    returns (d': Disk, r: Result<ReceiveSummary, ReceiveError>)
    requires WellFormed(d.fs)
    requires forall i: nat :: IsIsoTimestamp(clock(i))
    ensures WellFormed(d'.fs) && Extends(d.fs, d'.fs)
    ensures r.Err? ==> d' == d
    ensures ResolveMailboxForReceive(d.fs, codec, pollingFile, explicitMailbox).Err? ==>
      r == Err(MailboxUnresolved(ResolveMailboxForReceive(d.fs, codec, pollingFile, explicitMailbox).error))
    ensures r.Ok? ==>
      && Ok(r.value.mailbox) == ResolveMailboxForReceive(d.fs, codec, pollingFile, explicitMailbox)
      && LoadMailEnvConfig(d.fs, dotenv, envFile, isEmail).Ok?
      && !server.search(r.value.mailbox).SearchFailed?
      && r.value.found == |SearchedIds(server.search(r.value.mailbox))|
      && r.value.saved + r.value.failed == r.value.found
      && r.value.saved == r.value.seenMarked
    ensures r.Ok? && server.search(r.value.mailbox).SearchFalse? ==> r.value.found == 0
  {
    var mailbox := ResolveMailboxForReceive(d.fs, codec, pollingFile, explicitMailbox);
    if mailbox.Err? {
      return d, Err(MailboxUnresolved(mailbox.error));
    }
    var env := LoadMailEnvConfig(d.fs, dotenv, envFile, isEmail);
    if env.Err? {
      return d, Err(EnvUnavailable(env.error));
    }
    var search := server.search(mailbox.value);
    if search.SearchFailed? {
      return d, Err(SessionFailed);
    }
    var found, saved, seenMarked, failed, outcomes, events;
    d', found, saved, seenMarked, failed, outcomes, events :=
      ProcessUnseen(d, codec, decodeUtf8, messagesDir, clock, server, SearchedIds(search));
    r := Ok(ReceiveSummary(mailbox.value, found, saved, seenMarked, failed));
  }
}
