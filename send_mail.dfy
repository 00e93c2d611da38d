/**
 * Sending a message (src/send/sendMail.ts): the recipient-list parser, the input schema
 * with its defaults and its body rule, and the order of effects in `sendMail` — validate,
 * load the mail configuration, check every attachment, hand the message to SMTP, and only
 * then archive it, where a failed archive does not undo the send.
 *
 * zod's `.email()` check is a predicate given from outside; the SMTP transport is an oracle
 * that either delivers (with or without a message id) or fails.
 */
module SendMail {
  import opened Wrappers
  import opened Text
  import opened FileSystem
  import opened Records
  import opened ArchiveNaming
  import opened Env
  import opened SendArchive

  /** One zod issue of the send schemas, by the field (and element) it is about. */
  datatype InputIssue =
    | TooFew(field: string)                   // `.min(1)` on an array; "" is the list itself
    | NotAnEmail(field: string, index: nat)   // an element that fails `.trim().email()`
    | Blank(field: string, at: Option<nat>)    // `.trim().min(1)` on a string
    | NoBody                                  // the `superRefine` body rule

  // ---------------------------------------------------------------- recipients

  /** `recipientSchema` (src/send/sendMail.ts:10): the trimmed text is an address. */
  predicate IsRecipient(isEmail: string -> bool, s: string) {
    isEmail(Trim(s))
  }

  function TrimAll(items: seq<string>): (r: seq<string>)
    ensures |r| == |items| && forall k :: 0 <= k < |r| ==> r[k] == Trim(items[k])
  {
    seq(|items|, k requires 0 <= k < |items| => Trim(items[k]))
  }

  /** One `NotAnEmail` issue per element that is not a recipient, in element order. */
  function BadAddresses(field: string, items: seq<string>, isEmail: string -> bool): (r: seq<InputIssue>)
    ensures forall x :: x in r ==> x.NotAnEmail? && x.field == field && x.index < |items|
    ensures r == [] <==> forall x :: x in items ==> IsRecipient(isEmail, x)
  {
    if items == [] then []
    else
      var n := |items| - 1;
      assert items == items[..n] + [items[n]];
      BadAddresses(field, items[..n], isEmail)
      + (if IsRecipient(isEmail, items[n]) then [] else [NotAnEmail(field, n)])
  }

  /** One `Blank` issue per element that is empty once trimmed, in element order. */
  function BlankEntries(field: string, items: seq<string>): (r: seq<InputIssue>)
    ensures forall x :: x in r ==> x.Blank? && x.field == field && x.at.Some? && x.at.value < |items|
    ensures r == [] <==> forall x :: x in items ==> Trim(x) != ""
  {
    if items == [] then []
    else
      var n := |items| - 1;
      assert items == items[..n] + [items[n]];
      BlankEntries(field, items[..n]) + (if Trim(items[n]) == "" then [Blank(field, Some(n))] else [])
  }

  /** Trimmed pieces that are not empty, in order. */
  function NonBlank(pieces: seq<string>): (r: seq<string>)
    ensures forall x :: x in r ==> x != "" && NoEdgeWhitespace(x)
    ensures forall x :: x in r <==> exists k :: 0 <= k < |pieces| && Trim(pieces[k]) == x && x != ""
  {
    if pieces == [] then []
    else
      var n := |pieces| - 1;
      var rest := NonBlank(pieces[..n]);
      assert forall k :: 0 <= k < n ==> pieces[..n][k] == pieces[k];
      TrimFixedPoint(Trim(pieces[n]));
      TrimIdempotent(pieces[n]);
      rest + (if Trim(pieces[n]) == "" then [] else [Trim(pieces[n])])
  }

  /** The pieces of a recipient list: split on `,` and `;`, trimmed, empty ones dropped. */
  function AddressPieces(raw: string): seq<string> {
    NonBlank(Split(raw, {',', ';'}))
  }

  /** `parseAddressList` (src/send/sendMail.ts:41-48). */
  function ParseAddressList(raw: string, isEmail: string -> bool): (r: Result<seq<string>, seq<InputIssue>>)
    ensures r.Ok? <==> AddressPieces(raw) != [] && forall x :: x in AddressPieces(raw) ==> isEmail(x)
    ensures r.Ok? ==> r.value == AddressPieces(raw)
    ensures r.Err? ==> r.error != []
    ensures r.Err? ==> (TooFew("") in r.error <==> AddressPieces(raw) == [])
  {
    var pieces := AddressPieces(raw);
    var issues := (if pieces == [] then [TooFew("")] else []) + BadAddresses("", pieces, isEmail);
    assert forall k :: 0 <= k < |pieces| ==> Trim(pieces[k]) == pieces[k] by {
      forall k | 0 <= k < |pieces| ensures Trim(pieces[k]) == pieces[k] {
        assert pieces[k] in pieces;
        TrimNoop(pieces[k]);
      }
    }
    if issues == [] then
      assert TrimAll(pieces) == pieces;
      Ok(TrimAll(pieces))
    else Err(issues)
  }

  /** Every address the parser returns is a non-empty, trimmed piece with no separator in it. */
  lemma AddressesAreCleanPieces(raw: string, isEmail: string -> bool)
    requires ParseAddressList(raw, isEmail).Ok?
    ensures var addrs := ParseAddressList(raw, isEmail).value;
      && addrs != []
      && forall x :: x in addrs ==> x != "" && NoEdgeWhitespace(x) && ',' !in x && ';' !in x && isEmail(x)
  {
    var parts := Split(raw, {',', ';'});
    forall x | x in AddressPieces(raw) ensures ',' !in x && ';' !in x {
      var k :| 0 <= k < |parts| && Trim(parts[k]) == x && x != "";
      assert ',' !in parts[k] && ';' !in parts[k] by {
        forall j | 0 <= j < |parts[k]| ensures parts[k][j] !in {',', ';'} { }
      }
      TrimKeepsOut(parts[k], ',');
      TrimKeepsOut(parts[k], ';');
    }
  }

  /** Trimming adds no character. */
  lemma TrimKeepsOut(s: string, c: char)
    requires c !in s
    ensures c !in Trim(s)
  {
    TrimSlice(s);
  }

  /** No non-blank piece is lost: every one of them is among the addresses, and nothing else is. */
  lemma AddressListKeepsPieces(raw: string, isEmail: string -> bool)
    requires ParseAddressList(raw, isEmail).Ok?
    ensures var parts := Split(raw, {',', ';'});
      forall k :: 0 <= k < |parts| && Trim(parts[k]) != "" ==> Trim(parts[k]) in ParseAddressList(raw, isEmail).value
  {
  }

  /** The list is refused when any non-blank piece is not an address. */
  lemma {:induction false} BadPieceRefused(raw: string, isEmail: string -> bool, k: nat)
    requires k < |Split(raw, {',', ';'})|
    requires Trim(Split(raw, {',', ';'})[k]) != "" && !isEmail(Trim(Split(raw, {',', ';'})[k]))
    ensures ParseAddressList(raw, isEmail).Err?
  {
    assert Trim(Split(raw, {',', ';'})[k]) in AddressPieces(raw);
  }

  /**
   * Two addresses joined by `", "` give both addresses, in order — the shape of
   * `"a@example.com, b@example.com"`.
   */
  lemma TwoAddresses(a: string, b: string, isEmail: string -> bool)
    requires a != "" && b != "" && NoEdgeWhitespace(a) && NoEdgeWhitespace(b)
    requires ',' !in a && ';' !in a && ',' !in b && ';' !in b
    requires isEmail(a) && isEmail(b)
    ensures ParseAddressList(a + ", " + b, isEmail) == Ok([a, b])
  {
    TwoPieces(a, b);
    assert forall x :: x in [a, b] ==> isEmail(x);
  }

  lemma TwoPieces(a: string, b: string)
    requires a != "" && b != "" && NoEdgeWhitespace(a) && NoEdgeWhitespace(b)
    requires ',' !in a && ';' !in a && ',' !in b && ';' !in b
    ensures AddressPieces(a + ", " + b) == [a, b]
  {
    var tail := " " + b;
    SplitTwo(a, b);
    TrimPadded(" ", b, "");
    assert tail == " " + b + "";
    TrimNoop(a);
    assert NonBlank([a]) == [a] by { assert [a][..0] == []; }
    assert NonBlank([a, tail]) == NonBlank([a]) + [b] by { assert [a, tail][..1] == [a]; }
  }

  lemma SplitTwo(a: string, b: string)
    requires ',' !in a && ';' !in a && ',' !in b && ';' !in b
    ensures Split(a + ", " + b, {',', ';'}) == [a, " " + b]
  {
    var seps := {',', ';'};
    var tail := " " + b;
    SeparatorFree(a, seps);
    SeparatorFree(tail, seps);
    SplitNoSeparator(tail, seps);
    SplitAtSeparator(a, ',', tail, seps);
    assert a + ", " + b == a + [','] + tail;
  }

  lemma SeparatorFree(s: string, seps: set<char>)
    requires seps == {',', ';'} && ',' !in s && ';' !in s
    ensures forall j :: 0 <= j < |s| ==> s[j] !in seps
  {
    forall j | 0 <= j < |s| ensures s[j] !in seps { assert s[j] in s; }
  }

  // ---------------------------------------------------------------- the input schema

  /** `SendMailInput`; an absent optional field is `None`. */
  datatype SendMailInput = SendMailInput(
    to: seq<string>,
    cc: Option<seq<string>>,
    bcc: Option<seq<string>>,
    subject: string,
    text: Option<string>,
    html: Option<string>,
    attachments: Option<seq<string>>)

  /** The parsed input: recipients, subject and attachment paths trimmed, defaults filled in. */
  datatype SendRequest = SendRequest(
    to: seq<string>,
    cc: seq<string>,
    bcc: seq<string>,
    subject: string,
    text: Option<string>,
    html: Option<string>,
    attachments: seq<string>)

  function OrEmpty(items: Option<seq<string>>): seq<string> {
    if items.Some? then items.value else []
  }

  /** `!value.text && !value.html` is false: an empty string counts as missing. */
  predicate HasBody(text: Option<string>, html: Option<string>) {
    (text.Some? && text.value != "") || (html.Some? && html.value != "")
  }

  /** The schema's issues in field order: to, cc, bcc, subject, attachments, then the body rule. */
  function SendInputIssues(input: SendMailInput, isEmail: string -> bool): seq<InputIssue> {
    (if input.to == [] then [TooFew("to")] else [])
    + BadAddresses("to", input.to, isEmail)
    + BadAddresses("cc", OrEmpty(input.cc), isEmail)
    + BadAddresses("bcc", OrEmpty(input.bcc), isEmail)
    + (if Trim(input.subject) == "" then [Blank("subject", None)] else [])
    + BlankEntries("attachments", OrEmpty(input.attachments))
    + (if HasBody(input.text, input.html) then [] else [NoBody])
  }

  /** What the schema accepts, written field by field. */
  predicate AcceptableInput(input: SendMailInput, isEmail: string -> bool) {
    && input.to != []
    && (forall x :: x in input.to ==> IsRecipient(isEmail, x))
    && (forall x :: x in OrEmpty(input.cc) ==> IsRecipient(isEmail, x))
    && (forall x :: x in OrEmpty(input.bcc) ==> IsRecipient(isEmail, x))
    && Trim(input.subject) != ""
    && (forall x :: x in OrEmpty(input.attachments) ==> Trim(x) != "")
    && HasBody(input.text, input.html)
  }

  /** The schema raises no issue exactly when the input is acceptable. */
  lemma NoIssuesIffAcceptable(input: SendMailInput, isEmail: string -> bool)
    ensures SendInputIssues(input, isEmail) == [] <==> AcceptableInput(input, isEmail)
  {
    var a := BadAddresses("to", input.to, isEmail);
    var b := BadAddresses("cc", OrEmpty(input.cc), isEmail);
    var c := BadAddresses("bcc", OrEmpty(input.bcc), isEmail);
    var e := BlankEntries("attachments", OrEmpty(input.attachments));
    assert (a == [] && b == [] && c == [] && e == []) <==>
      && (forall x :: x in input.to ==> IsRecipient(isEmail, x))
      && (forall x :: x in OrEmpty(input.cc) ==> IsRecipient(isEmail, x))
      && (forall x :: x in OrEmpty(input.bcc) ==> IsRecipient(isEmail, x))
      && (forall x :: x in OrEmpty(input.attachments) ==> Trim(x) != "");
  }

  /** `parseSendMailInput` (src/send/sendMail.ts:22-39,50-52). */
  function ParseSendMailInput(input: SendMailInput, isEmail: string -> bool): (r: Result<SendRequest, seq<InputIssue>>)
    ensures r.Ok? <==> AcceptableInput(input, isEmail)
    ensures r.Err? ==> r.error == SendInputIssues(input, isEmail) && r.error != []
    ensures r.Ok? ==>
      && r.value.to == TrimAll(input.to) && r.value.to != []
      && r.value.cc == TrimAll(OrEmpty(input.cc)) && r.value.bcc == TrimAll(OrEmpty(input.bcc))
      && r.value.subject == Trim(input.subject) && r.value.subject != ""
      && r.value.text == input.text && r.value.html == input.html
      && r.value.attachments == TrimAll(OrEmpty(input.attachments))
  {
    var issues := SendInputIssues(input, isEmail);
    NoIssuesIffAcceptable(input, isEmail);
    if issues == [] then
      Ok(SendRequest(TrimAll(input.to), TrimAll(OrEmpty(input.cc)), TrimAll(OrEmpty(input.bcc)),
                     Trim(input.subject), input.text, input.html, TrimAll(OrEmpty(input.attachments))))
    else Err(issues)
  }

  /** Every accepted recipient is an address with no edge whitespace, and there is a body. */
  lemma AcceptedRecipientsClean(input: SendMailInput, isEmail: string -> bool)
    requires ParseSendMailInput(input, isEmail).Ok?
    ensures var req := ParseSendMailInput(input, isEmail).value;
      && (forall x :: x in req.to + req.cc + req.bcc ==> isEmail(x) && NoEdgeWhitespace(x))
      && (forall x :: x in req.attachments ==> x != "")
      && HasBody(req.text, req.html)
  {
    var req := ParseSendMailInput(input, isEmail).value;
    TrimmedRecipients(input.to, isEmail);
    TrimmedRecipients(OrEmpty(input.cc), isEmail);
    TrimmedRecipients(OrEmpty(input.bcc), isEmail);
    forall x | x in req.attachments ensures x != "" {
      var k :| 0 <= k < |req.attachments| && req.attachments[k] == x;
      assert OrEmpty(input.attachments)[k] in OrEmpty(input.attachments);
    }
  }

  /** Trimming a list of recipients gives addresses without edge whitespace. */
  lemma TrimmedRecipients(items: seq<string>, isEmail: string -> bool)
    requires forall x :: x in items ==> IsRecipient(isEmail, x)
    ensures forall x :: x in TrimAll(items) ==> isEmail(x) && NoEdgeWhitespace(x)
  {
    forall x | x in TrimAll(items) ensures isEmail(x) && NoEdgeWhitespace(x) {
      var k :| 0 <= k < |items| && TrimAll(items)[k] == x;
      assert items[k] in items;
      TrimIdempotent(items[k]);
      TrimFixedPoint(x);
    }
  }

  /** Left out, `cc`, `bcc` and `attachments` are empty lists. */
  lemma DefaultsAreEmpty(to: seq<string>, subject: string, text: Option<string>, html: Option<string>, isEmail: string -> bool)
    requires ParseSendMailInput(SendMailInput(to, None, None, subject, text, html, None), isEmail).Ok?
    ensures var req := ParseSendMailInput(SendMailInput(to, None, None, subject, text, html, None), isEmail).value;
      req.cc == [] && req.bcc == [] && req.attachments == []
  {
  }

  /** Without a non-empty `text` or `html` the input is refused, and the body rule is among the issues. */
  lemma MissingBodyRefused(input: SendMailInput, isEmail: string -> bool)
    requires !HasBody(input.text, input.html)
    ensures ParseSendMailInput(input, isEmail).Err?
    ensures NoBody in ParseSendMailInput(input, isEmail).error
  {
    var r := ParseSendMailInput(input, isEmail);
    assert r.error[|r.error| - 1] == NoBody;
  }

  // ---------------------------------------------------------------- sendMail

  /** What is handed to nodemailer: the sender from the configuration, attachments resolved. */
  datatype Outgoing = Outgoing(
    from: string, to: seq<string>, cc: seq<string>, bcc: seq<string>,
    subject: string, text: Option<string>, html: Option<string>, attachments: seq<Path>)

  /** What the transport answers: delivered, with the id the server gave if any, or a failure. */
  datatype Delivery = Delivered(messageId: Option<string>) | DeliveryFailed

  datatype SendError =
    | InvalidInput(issues: seq<InputIssue>)
    | EnvFailed(envError: EnvError)
    | AttachmentUnreadable(path: Path)   // `access(resolvedPath, R_OK)` threw
    | TransportFailed

  /** What `sendMail` does that can be observed, in order. */
  datatype SendEvent =
    | Accessed(path: Path)
    | Transmitted(message: Outgoing)
    | ArchivedAt(dir: Path)
    | ArchiveWarning(error: SaveError)   // `logger.warn(...)`; the send still succeeds

  /** Everything `sendMail` reads that is not on disk. */
  datatype SendSetup = SendSetup(
    isEmail: string -> bool, dotenv: seq<byte> -> RawEnv, envFile: Path,
    codec: JsonCodec, cwd: Path, sentDir: Path)

  function ResolveAll(cwd: Path, paths: seq<string>): (r: seq<Path>)
    requires ValidPath(cwd)
    ensures |r| == |paths| && forall k :: 0 <= k < |r| ==> r[k] == Resolve(cwd, paths[k])
  {
    seq(|paths|, k requires 0 <= k < |paths| => Resolve(cwd, paths[k]))
  }

  function Accesses(paths: seq<Path>): (r: seq<SendEvent>)
    ensures |r| == |paths| && forall k :: 0 <= k < |r| ==> r[k] == Accessed(paths[k])
  {
    seq(|paths|, k requires 0 <= k < |paths| => Accessed(paths[k]))
  }

  /** The first path that is not there, if any. */
  function FirstMissing(fs: Fs, paths: seq<Path>): (r: Option<nat>)
    ensures r.None? <==> forall k :: 0 <= k < |paths| ==> paths[k] in fs
    ensures r.Some? ==> r.value < |paths| && paths[r.value] !in fs && forall j :: 0 <= j < r.value ==> paths[j] in fs
  {
    if paths == [] then None
    else if paths[0] !in fs then Some(0)
    else
      var rest := FirstMissing(fs, paths[1..]);
      if rest.None? then None else Some(rest.value + 1)
  }

  /**
   * `for (const attachmentPath of parsedInput.attachments) await access(...)`
   * (src/send/sendMail.ts:58-61): each path is checked in turn, and the first one that is not
   * there stops the loop.
   */
  method CheckAttachments(fs: Fs, paths: seq<Path>) returns (missing: Option<nat>, events: seq<SendEvent>)
    ensures missing == FirstMissing(fs, paths)
    ensures missing.None? ==> events == Accesses(paths)
    ensures missing.Some? ==> events == Accesses(paths[..missing.value + 1])
  {
    events := [];
    var i := 0;
    while i < |paths|
      invariant 0 <= i <= |paths|
      invariant forall j :: 0 <= j < i ==> paths[j] in fs
      invariant events == Accesses(paths[..i])
    {
      events := events + [Accessed(paths[i])];
      assert paths[..i + 1] == paths[..i] + [paths[i]];
      if paths[i] !in fs {
        missing := Some(i);
        FirstMissingAt(fs, paths, i);
        return;
      }
      i := i + 1;
    }
    assert paths[..i] == paths;
    missing := None;
  }

  lemma FirstMissingAt(fs: Fs, paths: seq<Path>, i: nat)
    requires i < |paths| && paths[i] !in fs && forall j :: 0 <= j < i ==> paths[j] in fs
    ensures FirstMissing(fs, paths) == Some(i)
  {
  }

  /** The message as it goes to nodemailer (src/send/sendMail.ts:73-84). */
  function OutgoingOf(env: MailEnvConfig, req: SendRequest, cwd: Path): Outgoing
    requires ValidPath(cwd)
  {
    Outgoing(env.email, req.to, req.cc, req.bcc, req.subject, req.text, req.html, ResolveAll(cwd, req.attachments))
  }

  /** The archive record (src/send/sendMail.ts:87-97): the configured sender and the parsed input. */
  function SentInputOf(env: MailEnvConfig, req: SendRequest, messageId: Option<string>): SentInput {
    SentInput(messageId, env.email, req.to, req.cc, req.bcc, req.subject, req.text, req.html, req.attachments)
  }

  /** `saveSentMessage` as `sendMail` sees it: a directory or an error, with the disk only growing. */
  method ArchiveSent(d: Disk, codec: JsonCodec, cwd: Path, sentDir: Path, now: string, input: SentInput)
    returns (d': Disk, event: SendEvent)
    requires WellFormed(d.fs) && IsIsoTimestamp(now) && ValidPath(cwd)
    ensures WellFormed(d'.fs) && Extends(d.fs, d'.fs)
    ensures event.ArchivedAt? || event.ArchiveWarning?
    ensures event.ArchivedAt? ==> Parent(event.dir) == sentDir && event.dir + ["metadata.json"] in d'.fs
  {
    var r;
    d', r := SaveSentMessage(d, codec, cwd, sentDir, now, input);
    event := if r.Ok? then ArchivedAt(r.value.messageDir) else ArchiveWarning(r.error);
  }

  /**
   * What happens once the input is parsed and the configuration loaded: the first missing
   * attachment stops everything before the transport; otherwise the message goes out, and
   * only a delivered message is archived, its id returned whatever the archive did.
   */
  predicate Dispatched(d: Disk, d': Disk, paths: seq<Path>, message: Outgoing, delivery: Delivery,
                       r: Result<Option<string>, SendError>, trace: seq<SendEvent>)
  {
    && (FirstMissing(d.fs, paths).Some? ==>
          var k := FirstMissing(d.fs, paths).value;
          r == Err(AttachmentUnreadable(paths[k])) && trace == Accesses(paths[..k + 1]) && d' == d)
    && (FirstMissing(d.fs, paths).None? ==>
          && |trace| >= |paths| + 1
          && trace[..|paths|] == Accesses(paths)
          && trace[|paths|] == Transmitted(message)
          && (delivery.DeliveryFailed? ==> r == Err(TransportFailed) && |trace| == |paths| + 1 && d' == d)
          && (delivery.Delivered? ==>
                && r == Ok(delivery.messageId)
                && |trace| == |paths| + 2
                && (trace[|paths| + 1].ArchivedAt? || trace[|paths| + 1].ArchiveWarning?)))
  }

  /** The attachment checks, the transport and the best-effort archive (src/send/sendMail.ts:58-104). */
  method Dispatch(d: Disk, setup: SendSetup, now: string, transport: (MailEnvConfig, Outgoing) -> Delivery,
                  env: MailEnvConfig, req: SendRequest)
    returns (d': Disk, r: Result<Option<string>, SendError>, trace: seq<SendEvent>)
    requires WellFormed(d.fs) && IsIsoTimestamp(now) && ValidPath(setup.cwd)
    ensures WellFormed(d'.fs) && Extends(d.fs, d'.fs)
    ensures var message := OutgoingOf(env, req, setup.cwd);
      Dispatched(d, d', ResolveAll(setup.cwd, req.attachments), message, transport(env, message), r, trace)
    ensures r.Err? ==> d' == d
  {
    var paths := ResolveAll(setup.cwd, req.attachments);
    var missing;
    missing, trace := CheckAttachments(d.fs, paths);
    if missing.Some? {
      return d, Err(AttachmentUnreadable(paths[missing.value])), trace;
    }
    var message := OutgoingOf(env, req, setup.cwd);
    trace := trace + [Transmitted(message)];
    var delivery := transport(env, message);
    if delivery.DeliveryFailed? {
      return d, Err(TransportFailed), trace;
    }
    var archived;
    d', archived := ArchiveSent(d, setup.codec, setup.cwd, setup.sentDir, now,
                                SentInputOf(env, req, delivery.messageId));
    trace := trace + [archived];
    r := Ok(delivery.messageId);
  }

  /**
   * `sendMail` (src/send/sendMail.ts:54-105). Nothing is sent for input the schema refuses,
   * for a configuration that does not load, or while an attachment is missing; the archive is
   * written only after the transport delivered, and whether it succeeds or not the message
   * id is returned.
   */
  method Send(d: Disk, setup: SendSetup, now: string, transport: (MailEnvConfig, Outgoing) -> Delivery,
              input: SendMailInput)
    returns (d': Disk, r: Result<Option<string>, SendError>, trace: seq<SendEvent>)
    requires WellFormed(d.fs) && IsIsoTimestamp(now) && ValidPath(setup.cwd)
    ensures WellFormed(d'.fs) && Extends(d.fs, d'.fs)
    // validation comes first, then the configuration
    ensures ParseSendMailInput(input, setup.isEmail).Err? ==>
      r == Err(InvalidInput(ParseSendMailInput(input, setup.isEmail).error)) && trace == [] && d' == d
    ensures (ParseSendMailInput(input, setup.isEmail).Ok?
             && LoadMailEnvConfig(d.fs, setup.dotenv, setup.envFile, setup.isEmail).Err?) ==>
      r == Err(EnvFailed(LoadMailEnvConfig(d.fs, setup.dotenv, setup.envFile, setup.isEmail).error))
      && trace == [] && d' == d
    // then every attachment, then the transport, then the archive
    ensures (ParseSendMailInput(input, setup.isEmail).Ok?
             && LoadMailEnvConfig(d.fs, setup.dotenv, setup.envFile, setup.isEmail).Ok?) ==>
      var req := ParseSendMailInput(input, setup.isEmail).value;
      var env := LoadMailEnvConfig(d.fs, setup.dotenv, setup.envFile, setup.isEmail).value;
      var message := OutgoingOf(env, req, setup.cwd);
      Dispatched(d, d', ResolveAll(setup.cwd, req.attachments), message, transport(env, message), r, trace)
    // the archive is never written unless the message went out
    ensures r.Err? ==> d' == d
  {
    var parsed := ParseSendMailInput(input, setup.isEmail);
    if parsed.Err? {
      return d, Err(InvalidInput(parsed.error)), [];
    }
    var loaded := LoadMailEnvConfig(d.fs, setup.dotenv, setup.envFile, setup.isEmail);
    if loaded.Err? {
      return d, Err(EnvFailed(loaded.error)), [];
    }
    d', r, trace := Dispatch(d, setup, now, transport, loaded.value, parsed.value);
  }

  /** Whenever the message goes out, every attachment was checked first and found. */
  lemma {:induction false} TransmittedOnlyAfterChecks(fs: Fs, paths: seq<Path>, trace: seq<SendEvent>, message: Outgoing)
    requires FirstMissing(fs, paths).None?
    requires |trace| >= |paths| + 1 && trace[..|paths|] == Accesses(paths) && trace[|paths|] == Transmitted(message)
    ensures forall p :: p in paths ==> p in fs && Accessed(p) in trace[..|paths|]
  {
    forall p | p in paths ensures p in fs && Accessed(p) in trace[..|paths|] {
      var k :| 0 <= k < |paths| && paths[k] == p;
      assert trace[..|paths|][k] == Accessed(p);
    }
  }
}
