/**
 * Writing one sent message into the archive (src/send/saveSentMessage.ts): a fresh
 * directory `<timestamp>_msg-<message id>[_n]` under the sent root holding the non-empty
 * bodies, a copy of every attached file under a collision-free name, and `metadata.json`,
 * which is written last. There is no `raw.eml` on this side.
 *
 * Attachment paths are resolved against the working directory, which is a parameter, and
 * the clock is the ISO text of `new Date()`.
 */
module SendArchive {
  import opened Wrappers
  import opened Text
  import opened FileSystem
  import opened ArchiveNaming
  import opened Records
  import opened ArchiveLayout

  /** `SaveSentMessageInput`; a missing `text` or `html` is `None`. */
  datatype SentInput = SentInput(
    messageId: Option<string>,
    from: string,
    to: seq<string>,
    cc: seq<string>,
    bcc: seq<string>,
    subject: string,
    text: Option<string>,
    html: Option<string>,
    attachmentPaths: seq<string>)

  datatype SentResult = SentResult(messageDir: Path, metadata: SentMeta)

  // ---------------------------------------------------------------- names

  /** `${formatTimestamp(now)}_msg-${sanitizeSegment(messageId ?? "message")}` (src/send/saveSentMessage.ts:89-91). */
  function SentDirectoryName(now: string, messageId: Option<string>): string {
    FormatTimestamp(now) + "_msg-" + SanitizeSegment(messageId.GetOr("message"))
  }

  /** The directory name is one path segment. */
  lemma SentDirectoryNameProper(now: string, messageId: Option<string>)
    requires IsIsoTimestamp(now)
    ensures ProperName(SentDirectoryName(now, messageId))
  {
    TimestampHasNoSlash(now);
    var segment := SanitizeSegment(messageId.GetOr("message"));
    assert '/' !in "_msg-";
    assert |SentDirectoryName(now, messageId)| >= 21;
  }

  /** A message without an id is filed as `<timestamp>_msg-message`. */
  lemma MissingMessageIdName(now: string, m: string)
    requires m == "message"
    ensures SentDirectoryName(now, None) == FormatTimestamp(now) + "_msg-" + m
  {
    LetterWordAllowed(m, SegmentChars);
    SegmentKept(m);
  }

  /** A segment already in the alphabet and without `_` at either end is kept as it is. */
  lemma SegmentKept(s: string)
    requires s != [] && s[0] != '_' && s[|s| - 1] != '_' && AllAllowed(s, SegmentChars)
    ensures SanitizeSegment(s) == s
  {
    ReplaceDisallowedSpec(s, SegmentChars);
    assert DropLeading(s, '_') == s;
    assert DropTrailing(s, '_') == s;
  }

  /**
   * What the loop stores for each attachment path, in order
   * (src/send/saveSentMessage.ts:108-111): the resolved file, under the sanitised basename
   * of the resolved path.
   */
  function SentItems(cwd: Path, paths: seq<string>): (r: seq<Item>)
    requires ValidPath(cwd)
    ensures |r| == |paths| && ProperNames(r)
    ensures forall k :: 0 <= k < |r| ==>
      r[k] == Item(SanitizeFilename(Name(Resolve(cwd, paths[k]))), CopyOf(Resolve(cwd, paths[k])))
  {
    seq(|paths|, k requires 0 <= k < |paths| =>
      Item(SanitizeFilename(Name(Resolve(cwd, paths[k]))), CopyOf(Resolve(cwd, paths[k]))))
  }

  /** The log of a successful save, in the order the writes happen. */
  function SentLog(start: seq<Effect>, dir: Path, text: Option<string>, html: Option<string>, saved: seq<AttachmentMeta>): seq<Effect> {
    start + [MadeDir(dir), MadeDir(dir + ["attachments"])]
      + BodyLog(dir, "body.txt", text) + BodyLog(dir, "body.html", html)
      + WroteEach(dir + ["attachments"], saved) + [Wrote(dir + ["metadata.json"])]
  }

  // ---------------------------------------------------------------- saveSentMessage

  /**
   * The first steps of `saveSentMessage` (src/send/saveSentMessage.ts:87-104): allocate the
   * message directory with its `attachments` subdirectory, then write the non-empty bodies.
   * Afterwards the directory holds exactly those entries.
   */
  method PrepareSentDir(d: Disk, sentDir: Path, name: string, text: Option<string>, html: Option<string>)
    returns (d': Disk, r: Result<Path, SaveError>)
    requires WellFormed(d.fs) && ProperName(name)
    ensures WellFormed(d'.fs) && Extends(d.fs, d'.fs)
    ensures r.Ok? ==> MkdirAll(d, sentDir).Ok?
    ensures r.Ok? ==>
      var dir := r.value;
      var start := MkdirAll(d, sentDir).value;
      && UniquePath(start.fs.Keys, DirSuffix(sentDir + [name])) == Some(dir)
      && Parent(dir) == sentDir && Vacant(d.fs, dir)
      && dir in d'.fs && d'.fs[dir] == Dir
      && dir + ["attachments"] in d'.fs && d'.fs[dir + ["attachments"]] == Dir
      && BodyFile(d'.fs, dir, "body.txt", text)
      && BodyFile(d'.fs, dir, "body.html", html)
      && (forall q :: q in d'.fs && Within(q, dir) ==>
            q in {dir, dir + ["attachments"], dir + ["body.txt"], dir + ["body.html"]})
      && d'.log == start.log + [MadeDir(dir), MadeDir(dir + ["attachments"])]
           + BodyLog(dir, "body.txt", text) + BodyLog(dir, "body.html", html)
  {
    var d2, madeDir := AllocateMessageDir(d, sentDir, name);
    if madeDir.Err? {
      return d2, Err(madeDir.error);
    }
    var dir := madeDir.value;
    ghost var start := MkdirAll(d, sentDir).value;
    FreshInside(start.fs, dir, "body.txt");
    FreshInside(start.fs, dir, "body.html");
    d' := WriteBodies(d2, dir, text, html);
    r := Ok(dir);
    ExtendsTrans(d.fs, d2.fs, d'.fs);
    SentPreparedEntries(start.fs, d2.fs, d'.fs, dir);
  }

  /** After the bodies are written, the entries at and below a vacant `dir` are the prepared ones. */
  lemma SentPreparedEntries(start: Fs, fs2: Fs, fs3: Fs, dir: Path)
    requires Vacant(start, dir)
    requires fs2 == start[dir := Dir][dir + ["attachments"] := Dir]
    requires Extends(fs2, fs3)
    requires forall q :: q in fs3 && q !in fs2 ==> q == dir + ["body.txt"] || q == dir + ["body.html"]
    ensures dir in fs3 && fs3[dir] == Dir
    ensures dir + ["attachments"] in fs3 && fs3[dir + ["attachments"]] == Dir
    ensures forall q :: q in fs3 && Within(q, dir) ==>
      q in {dir, dir + ["attachments"], dir + ["body.txt"], dir + ["body.html"]}
  {
  }

  /**
   * `saveSentMessage` (src/send/saveSentMessage.ts:83-143). Nothing that existed is changed.
   * On success the message directory is the first free name for `<timestamp>_msg-<segment>`
   * directly under the sent root and had nothing in or below it; it holds no `raw.eml`,
   * each body exactly when it is non-empty, one copied file and record per attachment path
   * under pairwise distinct fresh names, and `metadata.json` with the encoded record, which
   * is the last write. The record has `from` as a one-element list, copies the other fields
   * unchanged, and uses the clock reading of the directory name as both `date` and `savedAt`.
   */
  method SaveSentMessage(d: Disk, codec: JsonCodec, cwd: Path, sentDir: Path, now: string, input: SentInput)
    returns (d': Disk, r: Result<SentResult, SaveError>)
    requires WellFormed(d.fs) && IsIsoTimestamp(now) && ValidPath(cwd)
    ensures WellFormed(d'.fs) && Extends(d.fs, d'.fs)
    ensures r.Ok? ==> MkdirAll(d, sentDir).Ok?
    ensures r.Ok? ==>
      var dir := r.value.messageDir;
      var meta := r.value.metadata;
      var start := MkdirAll(d, sentDir).value;
      && UniquePath(start.fs.Keys, DirSuffix(sentDir + [SentDirectoryName(now, input.messageId)])) == Some(dir)
      && Parent(dir) == sentDir && Vacant(d.fs, dir)
      && meta == SentMeta(input.messageId, [input.from], input.to, input.cc, input.bcc,
                          Some(input.subject), Some(now), now, meta.attachments)
      && dir + ["raw.eml"] !in d'.fs
      && BodyFile(d'.fs, dir, "body.txt", input.text)
      && BodyFile(d'.fs, dir, "body.html", input.html)
      && Filed(d.fs, d', dir + ["attachments"], SentItems(cwd, input.attachmentPaths), meta.attachments)
      && dir + ["metadata.json"] in d'.fs && d'.fs[dir + ["metadata.json"]] == File(codec.encode(SentMetaJson(meta)))
      && d'.log == SentLog(start.log, dir, input.text, input.html, meta.attachments)
  {
    SentDirectoryNameProper(now, input.messageId);
    var d5, prepared := PrepareSentDir(d, sentDir, SentDirectoryName(now, input.messageId), input.text, input.html);
    if prepared.Err? {
      return d5, Err(prepared.error);
    }
    var dir := prepared.value;
    var att := dir + ["attachments"];

    var items := SentItems(cwd, input.attachmentPaths);
    var d6, stored := StoreAttachments(d5, att, items);
    if stored.Err? {
      ExtendsTrans(d.fs, d5.fs, d6.fs);
      return d6, Err(stored.error);
    }
    var saved := stored.value;

    var meta := SentMeta(input.messageId, [input.from], input.to, input.cc, input.bcc,
      Some(input.subject), Some(now), now, saved);

    var metaPath := dir + ["metadata.json"];
    SentMetadataPathFree(d5, d6, dir);
    var data := codec.encode(SentMetaJson(meta));
    d' := WriteFile(d6, metaPath, data).value;
    r := Ok(SentResult(dir, meta));
    SentFinish(d, d5, d6, d', dir, input.text, input.html, items, saved, data);
  }

  /** `metadata.json` is still free once the bodies and attachments are written, and can be written. */
  lemma SentMetadataPathFree(d5: Disk, d6: Disk, dir: Path)
    requires dir in d5.fs && d5.fs[dir] == Dir
    requires forall q :: q in d5.fs && Within(q, dir) ==>
      q in {dir, dir + ["attachments"], dir + ["body.txt"], dir + ["body.html"]}
    requires Grown(d5, d6, dir + ["attachments"])
    ensures dir + ["metadata.json"] !in d6.fs && dir + ["raw.eml"] !in d6.fs
    ensures WriteFile(d6, dir + ["metadata.json"], []).Ok?
  {
    UnlistedAbsent(d5, d6, dir, "metadata.json");
    UnlistedAbsent(d5, d6, dir, "raw.eml");
    ChildOf(dir, "metadata.json");
  }

  /** A name other than the prepared ones is not taken in `dir` after the attachments are stored. */
  lemma UnlistedAbsent(d5: Disk, d6: Disk, dir: Path, name: string)
    requires name !in {"attachments", "body.txt", "body.html"}
    requires forall q :: q in d5.fs && Within(q, dir) ==>
      q in {dir, dir + ["attachments"], dir + ["body.txt"], dir + ["body.html"]}
    requires Grown(d5, d6, dir + ["attachments"])
    ensures dir + [name] !in d6.fs
  {
    var p := dir + [name];
    assert p[..|dir|] == dir;
    Siblings(dir, name, "attachments");
    Siblings(dir, name, "body.txt");
    Siblings(dir, name, "body.html");
    assert p !in d5.fs;
    ChildOf(dir, name);
    assert |dir + ["attachments"]| == |dir| + 1;
  }

  /** The last write keeps everything the earlier steps left in place. */
  lemma SentFinish(d: Disk, d5: Disk, d6: Disk, d': Disk, dir: Path, text: Option<string>,
                   html: Option<string>, items: seq<Item>, saved: seq<AttachmentMeta>, data: seq<byte>)
    requires Extends(d.fs, d5.fs) && Grown(d5, d6, dir + ["attachments"])
    requires StoredAll(d5, d6, dir + ["attachments"], items, saved)
    requires BodyFile(d5.fs, dir, "body.txt", text) && BodyFile(d5.fs, dir, "body.html", html)
    requires dir + ["metadata.json"] !in d6.fs && dir + ["raw.eml"] !in d6.fs
    requires d' == Disk(d6.fs[dir + ["metadata.json"] := File(data)], d6.log + [Wrote(dir + ["metadata.json"])])
    ensures Extends(d.fs, d'.fs)
    ensures dir + ["raw.eml"] !in d'.fs
    ensures BodyFile(d'.fs, dir, "body.txt", text) && BodyFile(d'.fs, dir, "body.html", html)
    ensures Filed(d.fs, d', dir + ["attachments"], items, saved)
    ensures d'.log == d5.log + WroteEach(dir + ["attachments"], saved) + [Wrote(dir + ["metadata.json"])]
  {
    var att := dir + ["attachments"];
    assert Extends(d6.fs, d'.fs);
    ExtendsTrans(d5.fs, d6.fs, d'.fs);
    ExtendsTrans(d.fs, d5.fs, d'.fs);
    Siblings(dir, "raw.eml", "metadata.json");
    Siblings(dir, "body.txt", "metadata.json");
    Siblings(dir, "body.html", "metadata.json");
    assert Parent(dir + ["body.txt"]) == dir && Parent(dir + ["body.html"]) == dir;
    assert |att| == |dir| + 1;
    BodyFileKept(d5.fs, d'.fs, dir, "body.txt", text);
    BodyFileKept(d5.fs, d'.fs, dir, "body.html", html);
    FiledKept(d.fs, d5.fs, d6, d', att, items, saved);
  }

  /**
   * Every copied attachment is recorded as `application/octet-stream`, whatever the file is
   * (src/send/saveSentMessage.ts:117-122).
   */
  lemma {:induction false} SentAttachmentsOctetStream(fs0: Fs, d': Disk, dir: Path, cwd: Path, paths: seq<string>, saved: seq<AttachmentMeta>)
    requires ValidPath(cwd) && Filed(fs0, d', dir, SentItems(cwd, paths), saved)
    ensures forall k :: 0 <= k < |saved| ==> saved[k].contentType == OctetStream
    ensures forall k :: 0 <= k < |saved| ==> NamedAfter(saved[k].filename, SanitizeFilename(Name(Resolve(cwd, paths[k]))))
  {
    var items := SentItems(cwd, paths);
    forall k | 0 <= k < |saved|
      ensures saved[k].contentType == OctetStream
      ensures NamedAfter(saved[k].filename, SanitizeFilename(Name(Resolve(cwd, paths[k]))))
    {
      assert Stored(d', dir, items[k], saved[k]);
    }
  }

  /**
   * What `saveSentMessage` writes to `metadata.json` reads back, under a JSON codec that
   * round-trips, as a record the conversation index accepts, with every field it keeps.
   */
  lemma SentMetadataReadsBack(codec: JsonCodec, meta: SentMeta)
    requires RoundTrips(codec)
    ensures codec.decode(codec.encode(SentMetaJson(meta))) == Some(SentMetaJson(meta))
    ensures ParseSentRecord(SentMetaJson(meta)) == Some(SentView(meta))
  {
    SentRecordRoundTrip(meta);
  }
}
