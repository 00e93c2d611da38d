/**
 * Writing one received message into the archive (src/receive/saveMessage.ts): a fresh
 * directory `<timestamp>_uid-<uid>[_n]` under the messages root holding `raw.eml`, the
 * non-empty bodies, the attachments under collision-free names, and `metadata.json`,
 * which is written last.
 *
 * The parsed message is the part of mailparser's result the writer reads; the clock is
 * the ISO text of `new Date()`, and UTF-8 decoding of an HTML buffer is a function
 * supplied from outside.
 */
module ReceiveArchive {
  import opened Wrappers
  import opened Text
  import opened FileSystem
  import opened ArchiveNaming
  import opened Records
  import opened ArchiveLayout
  import Address

  // ---------------------------------------------------------------- formatAddress

  /** One mailbox of a parsed address header: both parts may be missing or empty. */
  datatype AddressEntry = AddressEntry(name: Option<string>, address: Option<string>)

  /** A parsed address header: absent, one address object, or a list of them. */
  datatype AddressField =
    | NoAddresses
    | OneObject(entries: seq<AddressEntry>)
    | ObjectList(objects: seq<seq<AddressEntry>>)

  /** JavaScript truthiness of an optional string. */
  predicate Truthy(v: Option<string>) {
    v.Some? && v.value != ""
  }

  /**
   * The text kept for one mailbox (src/receive/saveMessage.ts:59-66): `name <address>` when
   * both are non-empty, otherwise `address ?? name`, and nothing when that is missing or
   * empty.
   */
  function EntryText(e: AddressEntry): (r: Option<string>)
    ensures Truthy(e.name) && Truthy(e.address) ==> r == Some(e.name.value + " <" + e.address.value + ">")
    ensures !Truthy(e.name) && Truthy(e.address) ==> r == e.address
    ensures e.address.None? && Truthy(e.name) ==> r == e.name
    ensures !Truthy(e.address) && (e.address.Some? || !Truthy(e.name)) ==> r.None?
  {
    if Truthy(e.name) && Truthy(e.address) then Some(e.name.value + " <" + e.address.value + ">")
    else
      var v := if e.address.Some? then e.address else e.name;
      if Truthy(v) then v else None
  }

  /** The kept texts of `entries`, in order. */
  function FormatEntries(entries: seq<AddressEntry>): (r: seq<string>)
    ensures |r| <= |entries|
    ensures forall i :: 0 <= i < |r| ==> r[i] != ""
    decreases |entries|
  {
    if entries == [] then []
    else
      var n := |entries| - 1;
      match EntryText(entries[n])
      case None => FormatEntries(entries[..n])
      case Some(t) => FormatEntries(entries[..n]) + [t]
  }

  /** `formatAddress` (src/receive/saveMessage.ts:49-67). */
  function FormatAddress(field: AddressField): seq<string> {
    match field
    case NoAddresses => []
    case OneObject(entries) => FormatEntries(entries)
    case ObjectList(objects) => FormatEntries(Address.Flatten(objects))
  }

  /** Formatting is done entry by entry: the texts of a concatenation are concatenated. */
  lemma {:induction false} FormatEntriesAppend(a: seq<AddressEntry>, b: seq<AddressEntry>)
    ensures FormatEntries(a + b) == FormatEntries(a) + FormatEntries(b)
    decreases |b|
  {
    if b == [] {
      assert a + b == a;
    } else {
      var n := |b| - 1;
      FormatEntriesAppend(a, b[..n]);
      assert (a + b)[..|a + b| - 1] == a + b[..n];
      assert (a + b)[|a + b| - 1] == b[n];
    }
  }

  /** A text is in the result exactly when some entry yields it. */
  lemma {:induction false} FormatEntriesMembers(entries: seq<AddressEntry>, x: string)
    ensures x in FormatEntries(entries) <==> exists i :: 0 <= i < |entries| && EntryText(entries[i]) == Some(x)
    decreases |entries|
  {
    if entries != [] {
      var n := |entries| - 1;
      var init := entries[..n];
      FormatEntriesMembers(init, x);
      if exists i :: 0 <= i < |entries| && EntryText(entries[i]) == Some(x) {
        var i :| 0 <= i < |entries| && EntryText(entries[i]) == Some(x);
        if i < n {
          assert init[i] == entries[i];
        }
      }
      if x in FormatEntries(init) {
        var i :| 0 <= i < |init| && EntryText(init[i]) == Some(x);
        assert entries[i] == init[i];
      }
    }
  }

  /** A list of address objects is formatted object after object. */
  lemma FormatAddressListSnoc(objects: seq<seq<AddressEntry>>, last: seq<AddressEntry>)
    ensures FormatAddress(ObjectList(objects + [last])) == FormatAddress(ObjectList(objects)) + FormatEntries(last)
  {
    assert (objects + [last])[..|objects|] == objects;
    FormatEntriesAppend(Address.Flatten(objects), last);
  }

  /**
   * `address ?? name` keeps an empty address, which the final filter then drops: a mailbox
   * with a name but an empty address vanishes, name and all.
   */
  lemma EmptyAddressHidesName(name: string)
    requires name != ""
    ensures FormatEntries([AddressEntry(Some(name), Some(""))]) == []
  {
    assert [AddressEntry(Some(name), Some(""))][..0] == [];
  }

  // ---------------------------------------------------------------- the parsed message

  /** `parsed.date`: missing, a valid `Date` (by its ISO text), or an invalid `Date`. */
  datatype DateField = NoDate | ValidDate(iso: string) | InvalidDateValue

  /** `parsed.html`: missing or `false`, a string, or a `Buffer`. */
  datatype HtmlField = NoHtml | HtmlText(text: string) | HtmlBuffer(bytes: seq<byte>)

  datatype ParsedAttachment = ParsedAttachment(
    filename: Option<string>,
    contentType: Option<string>,
    size: Option<nat>,
    content: seq<byte>)

  /** `ParsedMailLike`; `text` is `None` for anything but a string. */
  datatype ParsedMail = ParsedMail(
    messageId: Option<string>,
    subject: Option<string>,
    date: DateField,
    text: Option<string>,
    html: HtmlField,
    from: AddressField,
    to: AddressField,
    cc: AddressField,
    bcc: AddressField,
    attachments: seq<ParsedAttachment>)

  datatype SaveInput = SaveInput(uid: int, raw: seq<byte>, parsed: ParsedMail, flags: seq<string>)

  datatype SaveResult = SaveResult(messageDir: Path, metadata: MessageMeta)

  /** `normalizeHtml` (src/receive/saveMessage.ts:114-124). */
  function NormalizeHtml(html: HtmlField, decodeUtf8: seq<byte> -> string): (r: Option<string>)
    ensures r.None? <==> html.NoHtml?
    ensures html.HtmlText? ==> r == Some(html.text)
    ensures html.HtmlBuffer? ==> r == Some(decodeUtf8(html.bytes))
  {
    match html
    case NoHtml => None
    case HtmlText(t) => Some(t)
    case HtmlBuffer(b) => Some(decodeUtf8(b))
  }

  /** `parsed.date ? parsed.date.toISOString() : null`; `None` is the `RangeError` of an invalid date. */
  function DateText(date: DateField): (r: Option<Option<string>>)
    ensures r.None? <==> date.InvalidDateValue?
    ensures r == Some(None) <==> date.NoDate?
  {
    match date
    case NoDate => Some(None)
    case ValidDate(iso) => Some(Some(iso))
    case InvalidDateValue => None
  }

  // ---------------------------------------------------------------- names

  /** `${formatTimestamp(now)}_uid-${uid}` (src/receive/saveMessage.ts:130). */
  function DirectoryName(now: string, uid: int): string {
    FormatTimestamp(now) + "_uid-" + IntToString(uid)
  }

  lemma IntToStringHasNoSlash(n: int)
    ensures '/' !in IntToString(n)
  {
    var s := IntToString(n);
    if n < 0 {
      var digits := NatToString(-n);
      assert s == "-" + digits;
      forall i | 0 <= i < |s| ensures s[i] != '/' {
        if i > 0 {
          assert s[i] == digits[i - 1];
        }
      }
    } else {
      forall i | 0 <= i < |s| ensures s[i] != '/' {
        assert IsDigit(s[i]);
      }
    }
  }

  /** The directory name is one path segment. */
  lemma DirectoryNameProper(now: string, uid: int)
    requires IsIsoTimestamp(now)
    ensures ProperName(DirectoryName(now, uid))
  {
    TimestampHasNoSlash(now);
    IntToStringHasNoSlash(uid);
    var name := DirectoryName(now, uid);
    assert |name| >= 21;
    assert '/' !in "_uid-";
  }

  /**
   * The name asked for the attachment at `index` (src/receive/saveMessage.ts:153-154): its
   * own file name, or `attachment-<index + 1>.bin` when it has none, sanitised.
   */
  function AttachmentName(a: ParsedAttachment, index: nat): (r: string)
    ensures ProperName(r)
  {
    SanitizeFilename(a.filename.GetOr("attachment-" + NatToString(index + 1) + ".bin"))
  }

  /** What the loop stores for each parsed attachment, in order. */
  function AttachmentItems(attachments: seq<ParsedAttachment>): (r: seq<Item>)
    ensures |r| == |attachments| && ProperNames(r)
    ensures forall k :: 0 <= k < |r| ==>
      r[k] == Item(AttachmentName(attachments[k], k), Content(attachments[k].content, attachments[k].contentType, attachments[k].size))
  {
    seq(|attachments|, k requires 0 <= k < |attachments| =>
      Item(AttachmentName(attachments[k], k), Content(attachments[k].content, attachments[k].contentType, attachments[k].size)))
  }

  /** An attachment without a file name is stored under its numbered fallback name. */
  lemma MissingFilenameFallback(a: ParsedAttachment, index: nat)
    requires a.filename.None?
    ensures AttachmentName(a, index) == SanitizeFilename("attachment-" + NatToString(index + 1) + ".bin")
  {
  }

  /** An empty file name is not missing: `??` keeps it, and the sanitiser turns it into "attachment". */
  lemma EmptyFilenameFallback(a: ParsedAttachment, index: nat)
    requires a.filename == Some("")
    ensures AttachmentName(a, index) == "attachment"
  {
    assert Trim("") == "";
    assert Basename("") == "";
    assert ReplaceDisallowed("", FileNameChars) == "";
    assert SanitizedStem("") == "";
  }

  // ---------------------------------------------------------------- saveMessage

  /** The log of a successful save, in the order the writes happen. */
  function SaveLog(start: seq<Effect>, dir: Path, text: Option<string>, html: Option<string>, saved: seq<AttachmentMeta>): seq<Effect> {
    start + [MadeDir(dir), MadeDir(dir + ["attachments"]), Wrote(dir + ["raw.eml"])]
      + BodyLog(dir, "body.txt", text) + BodyLog(dir, "body.html", html)
      + WroteEach(dir + ["attachments"], saved) + [Wrote(dir + ["metadata.json"])]
  }

  /**
   * The first steps of `saveMessage` (src/receive/saveMessage.ts:127-146): allocate the
   * message directory with its `attachments` subdirectory, write `raw.eml`, then the
   * non-empty bodies. Afterwards the directory holds exactly those entries.
   */
  method PrepareMessageDir(d: Disk, messagesDir: Path, name: string, raw: seq<byte>, text: Option<string>, html: Option<string>)
    returns (d': Disk, r: Result<Path, SaveError>)
    requires WellFormed(d.fs) && ProperName(name)
    ensures WellFormed(d'.fs) && Extends(d.fs, d'.fs)
    ensures r.Ok? ==> MkdirAll(d, messagesDir).Ok?
    ensures r.Ok? ==>
      var dir := r.value;
      var start := MkdirAll(d, messagesDir).value;
      && UniquePath(start.fs.Keys, DirSuffix(messagesDir + [name])) == Some(dir)
      && Parent(dir) == messagesDir && Vacant(d.fs, dir)
      && dir in d'.fs && d'.fs[dir] == Dir
      && dir + ["attachments"] in d'.fs && d'.fs[dir + ["attachments"]] == Dir
      && dir + ["raw.eml"] in d'.fs && d'.fs[dir + ["raw.eml"]] == File(raw)
      && BodyFile(d'.fs, dir, "body.txt", text)
      && BodyFile(d'.fs, dir, "body.html", html)
      && (forall q :: q in d'.fs && Within(q, dir) ==>
            q in {dir, dir + ["attachments"], dir + ["raw.eml"], dir + ["body.txt"], dir + ["body.html"]})
      && d'.log == start.log + [MadeDir(dir), MadeDir(dir + ["attachments"]), Wrote(dir + ["raw.eml"])]
           + BodyLog(dir, "body.txt", text) + BodyLog(dir, "body.html", html)
  {
    var d2, madeDir := AllocateMessageDir(d, messagesDir, name);
    if madeDir.Err? {
      return d2, Err(madeDir.error);
    }
    var dir := madeDir.value;
    var att := dir + ["attachments"];
    ghost var start := MkdirAll(d, messagesDir).value;
    assert d2.fs == start.fs[dir := Dir][att := Dir];

    RawWritable(start, d2, dir, raw);
    var d3 := WriteFile(d2, dir + ["raw.eml"], raw).value;

    FreshInside(start.fs, dir, "body.txt");
    FreshInside(start.fs, dir, "body.html");
    d' := WriteBodies(d3, dir, text, html);
    r := Ok(dir);
    ExtendsTrans(d.fs, d2.fs, d3.fs);
    ExtendsTrans(d.fs, d3.fs, d'.fs);
    PreparedEntries(start.fs, d3.fs, d'.fs, dir, raw);
  }

  /** `raw.eml` can be written into the freshly made message directory, and nothing else changes. */
  lemma RawWritable(start: Disk, d2: Disk, dir: Path, raw: seq<byte>)
    requires WellFormed(d2.fs) && Vacant(start.fs, dir)
    requires d2.fs == start.fs[dir := Dir][dir + ["attachments"] := Dir]
    requires d2.log == start.log + [MadeDir(dir), MadeDir(dir + ["attachments"])]
    ensures WriteFile(d2, dir + ["raw.eml"], raw).Ok?
    ensures var d3 := WriteFile(d2, dir + ["raw.eml"], raw).value;
      && WellFormed(d3.fs) && Extends(d2.fs, d3.fs)
      && d3.fs == start.fs[dir := Dir][dir + ["attachments"] := Dir][dir + ["raw.eml"] := File(raw)]
      && d3.log == start.log + [MadeDir(dir), MadeDir(dir + ["attachments"]), Wrote(dir + ["raw.eml"])]
  {
    FreshInside(start.fs, dir, "raw.eml");
  }

  /** After the bodies are written, the entries at and below a vacant `dir` are the prepared ones. */
  lemma PreparedEntries(start: Fs, fs3: Fs, fs4: Fs, dir: Path, raw: seq<byte>)
    requires Vacant(start, dir)
    requires fs3 == start[dir := Dir][dir + ["attachments"] := Dir][dir + ["raw.eml"] := File(raw)]
    requires Extends(fs3, fs4)
    requires forall q :: q in fs4 && q !in fs3 ==> q == dir + ["body.txt"] || q == dir + ["body.html"]
    ensures dir in fs4 && fs4[dir] == Dir
    ensures dir + ["attachments"] in fs4 && fs4[dir + ["attachments"]] == Dir
    ensures dir + ["raw.eml"] in fs4 && fs4[dir + ["raw.eml"]] == File(raw)
    ensures forall q :: q in fs4 && Within(q, dir) ==>
      q in {dir, dir + ["attachments"], dir + ["raw.eml"], dir + ["body.txt"], dir + ["body.html"]}
  {
    Siblings(dir, "raw.eml", "attachments");
  }

  /**
   * `saveMessage` (src/receive/saveMessage.ts:126-191). Nothing that existed is changed.
   * On success the message directory is the first free name for `<timestamp>_uid-<uid>`
   * directly under the root and had nothing in or below it; it holds `raw.eml`, each body
   * exactly when it is non-empty, one record and file per attachment under pairwise
   * distinct fresh names, and `metadata.json` with the encoded record, which is the last
   * write. The record copies the parsed fields, formats the addresses, puts `to`, `cc` and
   * `bcc` together as `to`, and uses the same clock reading as the directory name. An
   * invalid date fails the save after the attachments are written.
   */
  method SaveMessage(d: Disk, codec: JsonCodec, decodeUtf8: seq<byte> -> string, messagesDir: Path, now: string, input: SaveInput)
    returns (d': Disk, r: Result<SaveResult, SaveError>)
    requires WellFormed(d.fs) && IsIsoTimestamp(now)
    ensures WellFormed(d'.fs) && Extends(d.fs, d'.fs)
    ensures input.parsed.date.InvalidDateValue? ==> r.Err?
    ensures r.Ok? ==> MkdirAll(d, messagesDir).Ok?
    ensures r.Ok? ==>
      var dir := r.value.messageDir;
      var meta := r.value.metadata;
      var parsed := input.parsed;
      var start := MkdirAll(d, messagesDir).value;
      && UniquePath(start.fs.Keys, DirSuffix(messagesDir + [DirectoryName(now, input.uid)])) == Some(dir)
      && Parent(dir) == messagesDir && Vacant(d.fs, dir)
      && meta.uid == input.uid
      && meta.messageId == parsed.messageId
      && meta.from == FormatAddress(parsed.from)
      && meta.to == FormatAddress(parsed.to) + FormatAddress(parsed.cc) + FormatAddress(parsed.bcc)
      && meta.subject == parsed.subject
      && DateText(parsed.date) == Some(meta.date)
      && meta.flags == input.flags
      && meta.savedAt == now
      && dir + ["raw.eml"] in d'.fs && d'.fs[dir + ["raw.eml"]] == File(input.raw)
      && BodyFile(d'.fs, dir, "body.txt", parsed.text)
      && BodyFile(d'.fs, dir, "body.html", NormalizeHtml(parsed.html, decodeUtf8))
      && Filed(d.fs, d', dir + ["attachments"], AttachmentItems(parsed.attachments), meta.attachments)
      && dir + ["metadata.json"] in d'.fs && d'.fs[dir + ["metadata.json"]] == File(codec.encode(MessageMetaJson(meta)))
      && d'.log == SaveLog(start.log, dir, parsed.text, NormalizeHtml(parsed.html, decodeUtf8), meta.attachments)
  {
    var parsed := input.parsed;
    var html := NormalizeHtml(parsed.html, decodeUtf8);
    DirectoryNameProper(now, input.uid);
    var d5, prepared := PrepareMessageDir(d, messagesDir, DirectoryName(now, input.uid), input.raw, parsed.text, html);
    if prepared.Err? {
      return d5, Err(prepared.error);
    }
    var dir := prepared.value;
    var att := dir + ["attachments"];

    var items := AttachmentItems(parsed.attachments);
    var d6, stored := StoreAttachments(d5, att, items);
    if stored.Err? {
      ExtendsTrans(d.fs, d5.fs, d6.fs);
      return d6, Err(stored.error);
    }
    var saved := stored.value;

    var recipients := FormatAddress(parsed.to) + FormatAddress(parsed.cc) + FormatAddress(parsed.bcc);
    var date := DateText(parsed.date);
    if date.None? {
      ExtendsTrans(d.fs, d5.fs, d6.fs);
      return d6, Err(InvalidDate);
    }
    var meta := MessageMeta(input.uid, parsed.messageId, FormatAddress(parsed.from), recipients,
      parsed.subject, date.value, input.flags, now, saved);

    var metaPath := dir + ["metadata.json"];
    MetadataPathFree(d5, d6, dir);
    var data := codec.encode(MessageMetaJson(meta));
    d' := WriteFile(d6, metaPath, data).value;
    r := Ok(SaveResult(dir, meta));
    SaveFinish(d, d5, d6, d', dir, input.raw, parsed.text, html, items, saved, data);
  }

  /** The last write keeps everything the earlier steps left in place. */
  lemma SaveFinish(d: Disk, d5: Disk, d6: Disk, d': Disk, dir: Path, raw: seq<byte>, text: Option<string>,
                   html: Option<string>, items: seq<Item>, saved: seq<AttachmentMeta>, data: seq<byte>)
    requires Extends(d.fs, d5.fs) && Grown(d5, d6, dir + ["attachments"])
    requires StoredAll(d5, d6, dir + ["attachments"], items, saved)
    requires dir + ["raw.eml"] in d5.fs && d5.fs[dir + ["raw.eml"]] == File(raw)
    requires BodyFile(d5.fs, dir, "body.txt", text) && BodyFile(d5.fs, dir, "body.html", html)
    requires dir + ["metadata.json"] !in d6.fs
    requires d' == Disk(d6.fs[dir + ["metadata.json"] := File(data)], d6.log + [Wrote(dir + ["metadata.json"])])
    ensures Extends(d.fs, d'.fs)
    ensures dir + ["raw.eml"] in d'.fs && d'.fs[dir + ["raw.eml"]] == File(raw)
    ensures BodyFile(d'.fs, dir, "body.txt", text) && BodyFile(d'.fs, dir, "body.html", html)
    ensures Filed(d.fs, d', dir + ["attachments"], items, saved)
    ensures d'.log == d5.log + WroteEach(dir + ["attachments"], saved) + [Wrote(dir + ["metadata.json"])]
  {
    var att := dir + ["attachments"];
    assert Extends(d6.fs, d'.fs);
    ExtendsTrans(d5.fs, d6.fs, d'.fs);
    ExtendsTrans(d.fs, d5.fs, d'.fs);
    Siblings(dir, "body.txt", "metadata.json");
    Siblings(dir, "body.html", "metadata.json");
    assert Parent(dir + ["body.txt"]) == dir && Parent(dir + ["body.html"]) == dir;
    assert |att| == |dir| + 1;
    BodyFileKept(d5.fs, d'.fs, dir, "body.txt", text);
    BodyFileKept(d5.fs, d'.fs, dir, "body.html", html);
    FiledKept(d.fs, d5.fs, d6, d', att, items, saved);
  }

  /** `metadata.json` is still free once the bodies and attachments are written, and can be written. */
  lemma MetadataPathFree(d5: Disk, d6: Disk, dir: Path)
    requires dir in d5.fs && d5.fs[dir] == Dir
    requires forall q :: q in d5.fs && Within(q, dir) ==>
      q in {dir, dir + ["attachments"], dir + ["raw.eml"], dir + ["body.txt"], dir + ["body.html"]}
    requires Grown(d5, d6, dir + ["attachments"])
    ensures dir + ["metadata.json"] !in d6.fs
    ensures WriteFile(d6, dir + ["metadata.json"], []).Ok?
  {
    var p := dir + ["metadata.json"];
    assert p[..|dir|] == dir;
    Siblings(dir, "metadata.json", "attachments");
    Siblings(dir, "metadata.json", "raw.eml");
    Siblings(dir, "metadata.json", "body.txt");
    Siblings(dir, "metadata.json", "body.html");
    assert p !in d5.fs;
    ChildOf(dir, "metadata.json");
    assert |dir + ["attachments"]| == |dir| + 1;
    assert dir in d6.fs && d6.fs[dir] == Dir;
  }

  /**
   * What `saveMessage` writes to `metadata.json` reads back, under a JSON codec that
   * round-trips, as a record the conversation index accepts, with every field it keeps.
   */
  lemma MetadataReadsBack(codec: JsonCodec, meta: MessageMeta)
    requires RoundTrips(codec)
    ensures codec.decode(codec.encode(MessageMetaJson(meta))) == Some(MessageMetaJson(meta))
    ensures ParseReceivedRecord(MessageMetaJson(meta)) == Some(ReceivedView(meta))
  {
    ReceivedRecordRoundTrip(meta);
  }
}
