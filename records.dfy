/**
 * The records the archive stores and exchanges (src/types.ts), the JSON values they are
 * written as, and the two metadata schemas the conversation index reads them back with
 * (src/conversation/queryConversation.ts:16-36).
 *
 * JSON text itself is not modelled: `JSON.stringify(value, null, 2) + "\n"` written as
 * UTF-8 and `JSON.parse` of the text read back form a `JsonCodec`, a pair of functions
 * supplied from outside; the lemmas that read a record back ask that the pair round-trips.
 */
module Records {
  import opened Wrappers
  import opened Text

  /**
   * A JSON value as `JSON.parse` returns it. Object members form a map, since a parsed
   * object keeps one value per key. Numbers are integers here; `JFraction` stands for any
   * number with a fractional part, which the schemas that ask for an integer refuse.
   */
  datatype Json =
    | JNull
    | JBool(b: bool)
    | JInt(n: int)
    | JFraction
    | JStr(s: string)
    | JArr(items: seq<Json>)
    | JObj(fields: map<string, Json>)

  /** Encoding to and decoding from the bytes of a `.json` file. */
  datatype JsonCodec = JsonCodec(encode: Json -> seq<byte>, decode: seq<byte> -> Option<Json>)

  /** `JSON.parse(JSON.stringify(v))` gives `v` back. */
  ghost predicate RoundTrips(c: JsonCodec) {
    forall v :: c.decode(c.encode(v)) == Some(v)
  }

  // ---------------------------------------------------------------- records (src/types.ts)

  datatype AttachmentMeta = AttachmentMeta(filename: string, contentType: string, size: nat, relativePath: string)

  /** `SavedMessageMetadata`: what `metadata.json` of a received message holds. */
  datatype MessageMeta = MessageMeta(
    uid: int,
    messageId: Option<string>,
    from: seq<string>,
    to: seq<string>,
    subject: Option<string>,
    date: Option<string>,
    flags: seq<string>,
    savedAt: string,
    attachments: seq<AttachmentMeta>)

  /** `SavedSentMessageMetadata`: what `metadata.json` of a sent message holds. */
  datatype SentMeta = SentMeta(
    messageId: Option<string>,
    from: seq<string>,
    to: seq<string>,
    cc: seq<string>,
    bcc: seq<string>,
    subject: Option<string>,
    date: Option<string>,
    savedAt: string,
    attachments: seq<AttachmentMeta>)

  datatype Direction = Received | Sent

  /** `ConversationEntry`: `cc` and `bcc` are present only on sent entries. */
  datatype ConversationEntry = ConversationEntry(
    direction: Direction,
    messageId: Option<string>,
    from: seq<string>,
    to: seq<string>,
    cc: Option<seq<string>>,
    bcc: Option<seq<string>>,
    subject: Option<string>,
    date: Option<string>,
    savedAt: string,
    messageDir: string)

  datatype PollingConfig = PollingConfig(mailbox: string, intervalSeconds: int)

  /** One of the two servers of `MailEnvConfig` (`smtp` and `imap`; `imap` is a word Dafny reserves). */
  datatype Endpoint = Endpoint(host: string, port: int, secure: bool, user: string, pass: string)

  datatype MailEnvConfig = MailEnvConfig(email: string, smtpServer: Endpoint, imapServer: Endpoint)

  // ---------------------------------------------------------------- writing records as JSON

  function StrOrNull(v: Option<string>): Json {
    match v
    case None => JNull
    case Some(s) => JStr(s)
  }

  function StrArray(xs: seq<string>): (r: Json)
    ensures r.JArr? && |r.items| == |xs|
  {
    JArr(seq(|xs|, i requires 0 <= i < |xs| => JStr(xs[i])))
  }

  function AttachmentJson(a: AttachmentMeta): Json {
    JObj(map[
      "filename" := JStr(a.filename),
      "contentType" := JStr(a.contentType),
      "size" := JInt(a.size),
      "relativePath" := JStr(a.relativePath)])
  }

  function AttachmentsJson(xs: seq<AttachmentMeta>): Json {
    JArr(seq(|xs|, i requires 0 <= i < |xs| => AttachmentJson(xs[i])))
  }

  function MessageMetaJson(m: MessageMeta): Json {
    JObj(map[
      "uid" := JInt(m.uid),
      "messageId" := StrOrNull(m.messageId),
      "from" := StrArray(m.from),
      "to" := StrArray(m.to),
      "subject" := StrOrNull(m.subject),
      "date" := StrOrNull(m.date),
      "flags" := StrArray(m.flags),
      "savedAt" := JStr(m.savedAt),
      "attachments" := AttachmentsJson(m.attachments)])
  }

  function SentMetaJson(m: SentMeta): Json {
    JObj(map[
      "messageId" := StrOrNull(m.messageId),
      "from" := StrArray(m.from),
      "to" := StrArray(m.to),
      "cc" := StrArray(m.cc),
      "bcc" := StrArray(m.bcc),
      "subject" := StrOrNull(m.subject),
      "date" := StrOrNull(m.date),
      "savedAt" := JStr(m.savedAt),
      "attachments" := AttachmentsJson(m.attachments)])
  }

  // ---------------------------------------------------------------- reading records back

  /** `z.string()` */
  function AsString(j: Json): (r: Option<string>)
    ensures r.Some? <==> j.JStr?
    ensures r.Some? ==> j == JStr(r.value)
  {
    match j
    case JStr(s) => Some(s)
    case _ => None
  }

  /** `z.string().nullable()`: a string or `null`; a missing member is refused. */
  function AsNullableString(j: Json): (r: Option<Option<string>>)
    ensures r.Some? <==> j.JStr? || j.JNull?
    ensures r.Some? ==> j == StrOrNull(r.value)
  {
    match j
    case JNull => Some(None)
    case JStr(s) => Some(Some(s))
    case _ => None
  }

  /** The items of an array when every one of them is a string. */
  function StringItems(items: seq<Json>): (r: Option<seq<string>>)
    ensures r.Some? <==> forall i :: 0 <= i < |items| ==> items[i].JStr?
    ensures r.Some? ==> |r.value| == |items| && forall i :: 0 <= i < |items| ==> items[i] == JStr(r.value[i])
    decreases |items|
  {
    if items == [] then Some([])
    else match StringItems(items[..|items| - 1])
      case None => None
      case Some(init) =>
        match items[|items| - 1]
        case JStr(s) => Some(init + [s])
        case _ => None
  }

  /** `z.array(z.string())` */
  function AsStrings(j: Json): (r: Option<seq<string>>)
    ensures r.Some? ==> j == StrArray(r.value)
  {
    match j
    case JArr(items) =>
      var r := StringItems(items);
      if r.Some? then assert items == StrArray(r.value).items; r else r
    case _ => None
  }

  /** What the receive-side schema keeps of a `metadata.json`. */
  datatype ReceivedRecord = ReceivedRecord(
    messageId: Option<string>,
    from: seq<string>,
    to: seq<string>,
    subject: Option<string>,
    date: Option<string>,
    savedAt: string)

  /** What the send-side schema keeps of a `metadata.json`. */
  datatype SentRecord = SentRecord(
    messageId: Option<string>,
    from: seq<string>,
    to: seq<string>,
    cc: seq<string>,
    bcc: seq<string>,
    subject: Option<string>,
    date: Option<string>,
    savedAt: string)

  /** Looks a member up; anything but an object has none. */
  function Member(j: Json, key: string): Option<Json> {
    if j.JObj? && key in j.fields then Some(j.fields[key]) else None
  }

  function Strings(j: Json, key: string): Option<seq<string>> {
    match Member(j, key)
    case None => None
    case Some(v) => AsStrings(v)
  }

  function NullableString(j: Json, key: string): Option<Option<string>> {
    match Member(j, key)
    case None => None
    case Some(v) => AsNullableString(v)
  }

  function StringMember(j: Json, key: string): Option<string> {
    match Member(j, key)
    case None => None
    case Some(v) => AsString(v)
  }

  /** `z.array(z.unknown())` */
  predicate HasArray(j: Json, key: string) {
    Member(j, key).Some? && Member(j, key).value.JArr?
  }

  /** `receivedMetadataSchema.safeParse` (src/conversation/queryConversation.ts:16-24). */
  function ParseReceivedRecord(j: Json): (r: Option<ReceivedRecord>)
    ensures r.Some? <==>
      && NullableString(j, "messageId").Some? && Strings(j, "from").Some? && Strings(j, "to").Some?
      && NullableString(j, "subject").Some? && NullableString(j, "date").Some?
      && StringMember(j, "savedAt").Some? && HasArray(j, "attachments")
  {
    var messageId :- NullableString(j, "messageId");
    var from :- Strings(j, "from");
    var to :- Strings(j, "to");
    var subject :- NullableString(j, "subject");
    var date :- NullableString(j, "date");
    var savedAt :- StringMember(j, "savedAt");
    if HasArray(j, "attachments") then Some(ReceivedRecord(messageId, from, to, subject, date, savedAt))
    else None
  }

  /** `sentMetadataSchema.safeParse` (src/conversation/queryConversation.ts:26-36). */
  function ParseSentRecord(j: Json): (r: Option<SentRecord>)
    ensures r.Some? <==>
      && NullableString(j, "messageId").Some? && Strings(j, "from").Some? && Strings(j, "to").Some?
      && Strings(j, "cc").Some? && Strings(j, "bcc").Some?
      && NullableString(j, "subject").Some? && NullableString(j, "date").Some?
      && StringMember(j, "savedAt").Some? && HasArray(j, "attachments")
  {
    var messageId :- NullableString(j, "messageId");
    var from :- Strings(j, "from");
    var to :- Strings(j, "to");
    var cc :- Strings(j, "cc");
    var bcc :- Strings(j, "bcc");
    var subject :- NullableString(j, "subject");
    var date :- NullableString(j, "date");
    var savedAt :- StringMember(j, "savedAt");
    if HasArray(j, "attachments") then Some(SentRecord(messageId, from, to, cc, bcc, subject, date, savedAt))
    else None
  }

  // ---------------------------------------------------------------- round trips

  /** A list of strings written as JSON reads back as the same list. */
  lemma {:induction false} StringsRoundTrip(xs: seq<string>)
    ensures AsStrings(StrArray(xs)) == Some(xs)
  {
    var items := StrArray(xs).items;
    assert forall i :: 0 <= i < |items| ==> items[i].JStr?;
    var r := StringItems(items);
    assert |r.value| == |xs|;
    forall i | 0 <= i < |xs| ensures r.value[i] == xs[i] {
      assert items[i] == JStr(r.value[i]) == JStr(xs[i]);
    }
    assert r.value == xs;
  }

  function ReceivedView(m: MessageMeta): ReceivedRecord {
    ReceivedRecord(m.messageId, m.from, m.to, m.subject, m.date, m.savedAt)
  }

  function SentView(m: SentMeta): SentRecord {
    SentRecord(m.messageId, m.from, m.to, m.cc, m.bcc, m.subject, m.date, m.savedAt)
  }

  /** The metadata a receive writes passes the receive-side schema with every kept field intact. */
  lemma ReceivedRecordRoundTrip(m: MessageMeta)
    ensures ParseReceivedRecord(MessageMetaJson(m)) == Some(ReceivedView(m))
  {
    ReceivedAddressesRead(m);
    ReceivedScalarsRead(m);
  }

  lemma ReceivedAddressesRead(m: MessageMeta)
    ensures var j := MessageMetaJson(m);
      Strings(j, "from") == Some(m.from) && Strings(j, "to") == Some(m.to)
  {
    StringsRoundTrip(m.from);
    StringsRoundTrip(m.to);
  }

  lemma ReceivedScalarsRead(m: MessageMeta)
    ensures var j := MessageMetaJson(m);
      && NullableString(j, "messageId") == Some(m.messageId)
      && NullableString(j, "subject") == Some(m.subject)
      && NullableString(j, "date") == Some(m.date)
      && StringMember(j, "savedAt") == Some(m.savedAt)
      && HasArray(j, "attachments")
  {
  }

  /** The metadata a send writes passes the send-side schema with every kept field intact. */
  lemma SentRecordRoundTrip(m: SentMeta)
    ensures ParseSentRecord(SentMetaJson(m)) == Some(SentView(m))
  {
    SentAddressesRead(m);
    SentScalarsRead(m);
  }

  lemma SentAddressesRead(m: SentMeta)
    ensures var j := SentMetaJson(m);
      && Strings(j, "from") == Some(m.from) && Strings(j, "to") == Some(m.to)
      && Strings(j, "cc") == Some(m.cc) && Strings(j, "bcc") == Some(m.bcc)
  {
    StringsRoundTrip(m.from);
    StringsRoundTrip(m.to);
    StringsRoundTrip(m.cc);
    StringsRoundTrip(m.bcc);
  }

  lemma SentScalarsRead(m: SentMeta)
    ensures var j := SentMetaJson(m);
      && NullableString(j, "messageId") == Some(m.messageId)
      && NullableString(j, "subject") == Some(m.subject)
      && NullableString(j, "date") == Some(m.date)
      && StringMember(j, "savedAt") == Some(m.savedAt)
      && HasArray(j, "attachments")
  {
  }
}
