/**
 * What the two archive writers (src/receive/saveMessage.ts and src/send/saveSentMessage.ts)
 * share: allocating a fresh per-message directory with its `attachments/` subdirectory,
 * and storing attachments under collision-free names, one after the other, each recorded
 * as a `SavedAttachmentMetadata`.
 */
module ArchiveLayout {
  import opened Wrappers
  import opened Text
  import opened FileSystem
  import opened ArchiveNaming
  import opened Records

  const OctetStream := "application/octet-stream"

  /** `q` is `dir` itself or lies below it. */
  predicate Within(q: Path, dir: Path) {
    |q| >= |dir| && q[..|dir|] == dir
  }

  /** Nothing in `fs` is at or below `dir`. */
  predicate Vacant(fs: Fs, dir: Path) {
    forall q :: q in fs ==> !Within(q, dir)
  }

  lemma AbsentIsVacant(fs: Fs, dir: Path)
    requires WellFormed(fs) && dir !in fs
    ensures Vacant(fs, dir)
  {
    forall q | q in fs ensures !Within(q, dir) {
      AbsentHasNothingBelow(fs, dir, q);
      if |q| == |dir| {
        assert q[..|dir|] == q;
      }
    }
  }

  lemma ChildOf(dir: Path, name: string)
    ensures Parent(dir + [name]) == dir && Name(dir + [name]) == name
  {
    assert (dir + [name])[..|dir|] == dir;
  }

  /**
   * The steps both writers take before anything is written into the message directory
   * (src/receive/saveMessage.ts:127-135, src/send/saveSentMessage.ts:87-96): create the
   * archive root recursively, create the first free one of `root/name`, `root/name_1`, ...
   * and create its `attachments` subdirectory.
   */
  method AllocateMessageDir(d: Disk, root: Path, name: string) returns (d': Disk, r: Result<Path, SaveError>)
    requires WellFormed(d.fs) && ProperName(name)
    ensures WellFormed(d'.fs) && Extends(d.fs, d'.fs)
    ensures r.Ok? ==> MkdirAll(d, root).Ok?
    ensures r.Ok? ==>
      var d1 := MkdirAll(d, root).value;
      && UniquePath(d1.fs.Keys, DirSuffix(root + [name])) == Some(r.value)
      && Parent(r.value) == root && ProperName(Name(r.value))
      && Vacant(d.fs, r.value) && Vacant(d1.fs, r.value)
      && d'.fs == d1.fs[r.value := Dir][r.value + ["attachments"] := Dir]
      && d'.log == d1.log + [MadeDir(r.value), MadeDir(r.value + ["attachments"])]
    ensures MkdirAll(d, root).Err? ==> d' == d && r == Err(Io(MkdirAll(d, root).error))
    ensures r.Err? && MkdirAll(d, root).Ok? ==> d' == MkdirAll(d, root).value
  {
    var made := MkdirAll(d, root);
    if made.Err? {
      return d, Err(Io(made.error));
    }
    var d1 := made.value;
    d', r := MakeMessageDir(d1, root, name);
    ExtendsTrans(d.fs, d1.fs, d'.fs);
    if r.Ok? {
      VacantShrinks(d.fs, d1.fs, r.value);
    }
  }

  /** Inside the existing archive root: the first free `root/name[_i]` and its `attachments`. */
  method MakeMessageDir(d1: Disk, root: Path, name: string) returns (d': Disk, r: Result<Path, SaveError>)
    requires WellFormed(d1.fs) && ProperName(name) && root in d1.fs && d1.fs[root] == Dir
    ensures WellFormed(d'.fs) && Extends(d1.fs, d'.fs)
    ensures r.Ok? ==>
      && UniquePath(d1.fs.Keys, DirSuffix(root + [name])) == Some(r.value)
      && Parent(r.value) == root && ProperName(Name(r.value)) && Vacant(d1.fs, r.value)
      && d'.fs == d1.fs[r.value := Dir][r.value + ["attachments"] := Dir]
      && d'.log == d1.log + [MadeDir(r.value), MadeDir(r.value + ["attachments"])]
    ensures r.Err? ==> d' == d1
  {
    var base := Join(root, name);
    assert base == root + [name];
    var d2, dir := EnsureUniqueMessageDir(d1, base);
    if dir.Err? {
      return d1, Err(dir.error);
    }
    var messageDir := dir.value;
    ChildOf(root, name);
    UniquePathShape(d1.fs.Keys, DirSuffix(base));
    AbsentIsVacant(d1.fs, messageDir);
    var attachmentDir := Join(messageDir, "attachments");
    ChildOf(messageDir, "attachments");
    assert attachmentDir !in d2.fs by {
      assert Within(attachmentDir, messageDir);
    }
    MkdirAllChild(d2, attachmentDir);
    var d3 := MkdirAll(d2, attachmentDir).value;
    assert d3 == Disk(d2.fs[attachmentDir := Dir], d2.log + [MadeDir(attachmentDir)]);
    AddExtends(d1.fs, messageDir);
    AddExtends(d2.fs, attachmentDir);
    ExtendsTrans(d1.fs, d2.fs, d3.fs);
    return d3, Ok(messageDir);
  }

  /** Adding a directory that was not there keeps everything else. */
  lemma AddExtends(fs: Fs, p: Path)
    requires p !in fs
    ensures Extends(fs, fs[p := Dir])
  {
  }

  /** A path free in the larger tree is free in the smaller one. */
  lemma VacantShrinks(fs: Fs, fs': Fs, dir: Path)
    requires Extends(fs, fs') && Vacant(fs', dir)
    ensures Vacant(fs, dir)
  {
  }

  /** Entries of one directory with different names are different paths. */
  lemma Siblings(dir: Path, a: string, b: string)
    requires a != b
    ensures dir + [a] != dir + [b]
  {
    assert (dir + [a])[|dir|] == a;
    assert (dir + [b])[|dir|] == b;
  }

  /** A name other than `attachments` inside a freshly allocated message directory is free. */
  lemma FreshInside(fs: Fs, dir: Path, name: string)
    requires Vacant(fs, dir) && name != "attachments"
    ensures dir + [name] !in fs[dir := Dir][dir + ["attachments"] := Dir]
    ensures Parent(dir + [name]) == dir && Name(dir + [name]) == name
  {
    assert (dir + [name])[..|dir|] == dir;
    assert Within(dir + [name], dir);
    Siblings(dir, name, "attachments");
  }

  // ---------------------------------------------------------------- body files

  /** A body is written only when it is a string with at least one character. */
  predicate NonEmpty(body: Option<string>) {
    body.Some? && body.value != ""
  }

  /** `writeFile(path.join(dir, name), body, "utf8")`, skipped for a missing or empty body. */
  function WriteBody(d: Disk, dir: Path, name: string, body: Option<string>): Result<Disk, IoError> {
    if NonEmpty(body) then WriteFile(d, dir + [name], Utf8Encode(body.value)) else Ok(d)
  }

  /** The log entry `WriteBody` adds: one `Wrote` for a non-empty body, none otherwise. */
  function BodyLog(dir: Path, name: string, body: Option<string>): seq<Effect> {
    if NonEmpty(body) then [Wrote(dir + [name])] else []
  }

  /** The body file is there exactly when the body is non-empty, and holds its UTF-8 bytes. */
  predicate BodyFile(fs: Fs, dir: Path, name: string, body: Option<string>) {
    if NonEmpty(body) then dir + [name] in fs && fs[dir + [name]] == File(Utf8Encode(body.value))
    else dir + [name] !in fs
  }

  /** A body file stays as it is while the store grows without creating that file. */
  lemma BodyFileKept(fs: Fs, fs': Fs, dir: Path, name: string, body: Option<string>)
    requires BodyFile(fs, dir, name, body) && Extends(fs, fs')
    requires dir + [name] in fs' ==> dir + [name] in fs
    ensures BodyFile(fs', dir, name, body)
  {
  }

  /** Writing a body into a directory where its file does not exist yet. */
  lemma WriteBodySpec(d: Disk, dir: Path, name: string, body: Option<string>)
    requires WellFormed(d.fs) && dir in d.fs && d.fs[dir] == Dir && dir + [name] !in d.fs
    ensures WriteBody(d, dir, name, body).Ok?
    ensures var d' := WriteBody(d, dir, name, body).value;
      && WellFormed(d'.fs) && Extends(d.fs, d'.fs) && BodyFile(d'.fs, dir, name, body)
      && (forall q :: q in d'.fs && q !in d.fs ==> q == dir + [name])
      && d'.log == d.log + BodyLog(dir, name, body)
  {
    ChildOf(dir, name);
  }

  /**
   * The two body writes of both writers (src/receive/saveMessage.ts:139-146,
   * src/send/saveSentMessage.ts:98-104): `body.txt`, then `body.html`, each only when its
   * text is non-empty.
   */
  method WriteBodies(d: Disk, dir: Path, text: Option<string>, html: Option<string>) returns (d': Disk)
    requires WellFormed(d.fs) && dir in d.fs && d.fs[dir] == Dir
    requires dir + ["body.txt"] !in d.fs && dir + ["body.html"] !in d.fs
    ensures WellFormed(d'.fs) && Extends(d.fs, d'.fs)
    ensures BodyFile(d'.fs, dir, "body.txt", text) && BodyFile(d'.fs, dir, "body.html", html)
    ensures forall q :: q in d'.fs && q !in d.fs ==> q == dir + ["body.txt"] || q == dir + ["body.html"]
    ensures d'.log == d.log + BodyLog(dir, "body.txt", text) + BodyLog(dir, "body.html", html)
  {
    WriteBodySpec(d, dir, "body.txt", text);
    var d1 := WriteBody(d, dir, "body.txt", text).value;
    Siblings(dir, "body.html", "body.txt");
    WriteBodySpec(d1, dir, "body.html", html);
    d' := WriteBody(d1, dir, "body.html", html).value;
  }

  // ---------------------------------------------------------------- storing attachments

  /** Where the bytes of an attachment come from. */
  datatype Payload =
    | Content(bytes: seq<byte>, contentType: Option<string>, size: Option<nat>)  // a parsed attachment
    | CopyOf(source: Path)                                                        // a file to copy

  /** An attachment to store: the sanitised name it asks for, and its bytes. */
  datatype Item = Item(name: string, payload: Payload)

  /** `{ filename, contentType, size, relativePath }` for a file stored at `p`. */
  function AttachmentRecord(p: Path, contentType: string, size: nat): AttachmentMeta {
    AttachmentMeta(Name(p), contentType, size, "attachments/" + Name(p))
  }

  /** `writeFile(p, content)` for parsed content, `copyFile(source, p)` for a file. */
  function Place(d: Disk, p: Path, payload: Payload): Result<Disk, IoError> {
    match payload
    case Content(bytes, _, _) => WriteFile(d, p, bytes)
    case CopyOf(source) => CopyFile(d, source, p)
  }

  /** The record of an attachment just stored at `p`; a copied file is measured with `stat`. */
  function Describe(d: Disk, p: Path, payload: Payload): AttachmentMeta
    requires p in d.fs && d.fs[p].File?
  {
    match payload
    case Content(bytes, contentType, size) =>
      AttachmentRecord(p, contentType.GetOr(OctetStream), size.GetOr(|bytes|))
    case CopyOf(_) =>
      AttachmentRecord(p, OctetStream, |d.fs[p].data|)
  }

  /**
   * The loops of src/receive/saveMessage.ts:151-165 and src/send/saveSentMessage.ts:108-123:
   * each item in turn gets the first free one of `name`, `stem(1).ext`, ... in `dir`, is
   * stored there, and its record is appended; the first failure stops the loop and leaves
   * what was stored so far.
   */
  function Store(d: Disk, dir: Path, items: seq<Item>): (Disk, Result<seq<AttachmentMeta>, SaveError>)
    decreases |items|
  {
    if items == [] then (d, Ok([]))
    else
      var n := |items| - 1;
      var before := Store(d, dir, items[..n]);
      if before.1.Err? then before
      else
        var after := StoreOne(before.0, dir, items[n]);
        (after.0, if after.1.Err? then Err(after.1.error) else Ok(before.1.value + [after.1.value]))
  }

  /** One pass of the loop: find a free name for the item in `dir`, store it, describe it. */
  function StoreOne(d: Disk, dir: Path, item: Item): (Disk, Result<AttachmentMeta, SaveError>) {
    match UniquePath(d.fs.Keys, FileSuffix(dir + [item.name]))
    case None => (d, Err(Exhausted))
    case Some(p) =>
      match Place(d, p, item.payload)
      case Err(e) => (d, Err(Io(e)))
      case Ok(d2) =>
        if p in d2.fs && d2.fs[p].File? then (d2, Ok(Describe(d2, p, item.payload)))
        else (d2, Err(Io(NotFound)))
  }

  predicate ProperNames(items: seq<Item>) {
    forall k :: 0 <= k < |items| ==> ProperName(items[k].name)
  }

  /** The `Wrote` effects of storing the given records in `dir`, in order. */
  function WroteEach(dir: Path, saved: seq<AttachmentMeta>): seq<Effect> {
    seq(|saved|, k requires 0 <= k < |saved| => Wrote(dir + [saved[k].filename]))
  }

  /** The name an item ends up with is its own or one of its numbered alternatives. */
  predicate NamedAfter(filename: string, name: string) {
    filename == name || exists i :: 1 <= i <= MaxSuffix && filename == CandidateName(FileSuffix([name]), i)
  }

  /**
   * `d'` keeps every entry of `d` and `dir` itself, adds only entries directly in `dir`, and
   * only appends to the log.
   */
  predicate Grown(d: Disk, d': Disk, dir: Path) {
    && WellFormed(d'.fs) && Extends(d.fs, d'.fs) && dir in d'.fs && d'.fs[dir] == Dir
    && (forall q :: q in d'.fs && q !in d.fs ==> |q| > 0 && Parent(q) == dir)
    && |d.log| <= |d'.log| && d'.log[..|d.log|] == d.log
  }

  /** Storing attachments only grows the disk, whether it succeeds or stops early. */
  lemma {:induction false} StoreFrame(d: Disk, dir: Path, items: seq<Item>)
    requires WellFormed(d.fs) && dir in d.fs && d.fs[dir] == Dir
    ensures Grown(d, Store(d, dir, items).0, dir)
    decreases |items|
  {
    if items == [] {
      assert d.log[..|d.log|] == d.log;
    } else {
      var n := |items| - 1;
      StoreFrame(d, dir, items[..n]);
      var before := Store(d, dir, items[..n]);
      var d1 := before.0;
      if before.1.Ok? {
        var s := FileSuffix(dir + [items[n].name]);
        match UniquePath(d1.fs.Keys, s)
        case None =>
        case Some(p) =>
          ChosenSibling(d1.fs.Keys, dir, items[n].name, p);
          match Place(d1, p, items[n].payload)
          case Err(e) =>
          case Ok(d2) =>
            PlaceFrame(d, d1, d2, dir, p, items[n].payload);
            assert Store(d, dir, items).0 == d2;
      }
    }
  }

  /** The free name found for a file in `dir` is a new file directly in `dir`. */
  lemma ChosenSibling(taken: set<Path>, dir: Path, name: string, p: Path)
    requires UniquePath(taken, FileSuffix(dir + [name])) == Some(p)
    ensures p !in taken && |p| > 0 && Parent(p) == dir
  {
    var s := FileSuffix(dir + [name]);
    ChildOf(dir, name);
    UniquePathSpec(taken, s);
    if dir + [name] in taken {
      var i := FirstFree(taken, s, 1).value;
      ChildOf(dir, CandidateName(s, i));
    }
  }

  lemma PlaceFrame(d: Disk, d1: Disk, d2: Disk, dir: Path, p: Path, payload: Payload)
    requires Grown(d, d1, dir)
    requires p !in d1.fs && |p| > 0 && Parent(p) == dir
    requires Place(d1, p, payload) == Ok(d2)
    ensures Grown(d, d2, dir)
  {
    assert d2.fs == d1.fs[p := d2.fs[p]];
    assert d2.log == d1.log + [Wrote(p)];
    assert d2.log[..|d.log|] == d1.log[..|d.log|];
  }

  /**
   * On success there is one record per item, in order; the names are proper, pairwise
   * distinct, new, and each is the item's own name or a numbered alternative of it;
   * `relativePath` is `attachments/<filename>`; the file is there, with the parsed content
   * or the copied bytes that its `size` measures; one `Wrote` per file was logged, in order.
   */
  lemma {:induction false} StoreSpec(d: Disk, dir: Path, items: seq<Item>)
    requires WellFormed(d.fs) && dir in d.fs && d.fs[dir] == Dir && ProperNames(items)
    ensures Store(d, dir, items).1.Ok? ==> StoredAll(d, Store(d, dir, items).0, dir, items, Store(d, dir, items).1.value)
    decreases |items|
  {
    if items != [] {
      var n := |items| - 1;
      assert ProperNames(items[..n]);
      StoreSpec(d, dir, items[..n]);
      StoreFrame(d, dir, items[..n]);
      var before := Store(d, dir, items[..n]);
      var d1 := before.0;
      if before.1.Ok? {
        var s := FileSuffix(dir + [items[n].name]);
        ChildOf(dir, items[n].name);
        UniquePathShape(d1.fs.Keys, s);
        UniquePathSpec(d1.fs.Keys, s);
        match UniquePath(d1.fs.Keys, s)
        case None =>
        case Some(p) =>
          match Place(d1, p, items[n].payload)
          case Err(e) =>
          case Ok(d2) =>
            if p in d2.fs && d2.fs[p].File? {
              StoreStep(d, d1, d2, dir, items, before.1.value, p);
            }
      }
    }
  }

  /** Once storing has stopped with an error, the later items change nothing. */
  lemma {:induction false} StoreStopped(d: Disk, dir: Path, items: seq<Item>, k: nat)
    requires k <= |items| && Store(d, dir, items[..k]).1.Err?
    ensures Store(d, dir, items) == Store(d, dir, items[..k])
    decreases |items| - k
  {
    if k < |items| {
      var n := |items| - 1;
      assert items[..n][..k] == items[..k];
      StoreStopped(d, dir, items[..n], k);
    } else {
      assert items[..k] == items;
    }
  }

  /**
   * The attachment loop itself: for each item, `ensureUniqueFilePath(path.join(dir, name))`,
   * then `writeFile` or `copyFile` (and `stat`), then the record is pushed.
   */
  method StoreAttachments(d: Disk, dir: Path, items: seq<Item>) returns (d': Disk, r: Result<seq<AttachmentMeta>, SaveError>)
    requires WellFormed(d.fs) && dir in d.fs && d.fs[dir] == Dir && ProperNames(items)
    ensures (d', r) == Store(d, dir, items)
    ensures Grown(d, d', dir)
    ensures r.Ok? ==> StoredAll(d, d', dir, items, r.value)
  {
    StoreFrame(d, dir, items);
    StoreSpec(d, dir, items);
    d' := d;
    var saved: seq<AttachmentMeta> := [];
    var i := 0;
    assert items[..0] == [];
    while i < |items|
      invariant 0 <= i <= |items|
      invariant Store(d, dir, items[..i]) == (d', Ok(saved))
    {
      StoreUnfold(d, dir, items, i);
      var d2, one := StoreItem(d', dir, items[i]);
      if one.Err? {
        StoreStopped(d, dir, items, i + 1);
        return d2, Err(one.error);
      }
      saved := saved + [one.value];
      d' := d2;
      i := i + 1;
    }
    assert items[..i] == items;
    r := Ok(saved);
  }

  /** One pass of the attachment loop, as `StoreOne` describes it. */
  method StoreItem(d: Disk, dir: Path, item: Item) returns (d2: Disk, r: Result<AttachmentMeta, SaveError>)
    requires ProperName(item.name)
    ensures (d2, r) == StoreOne(d, dir, item)
  {
    assert Join(dir, item.name) == dir + [item.name];
    var unique := EnsureUniqueFilePath(d.fs, Join(dir, item.name));
    if unique.Err? {
      return d, Err(unique.error);
    }
    var p := unique.value;
    var placed := Place(d, p, item.payload);
    if placed.Err? {
      return d, Err(Io(placed.error));
    }
    d2 := placed.value;
    if !(p in d2.fs && d2.fs[p].File?) {
      return d2, Err(Io(NotFound));
    }
    r := Ok(Describe(d2, p, item.payload));
  }

  /** Storing one more item after a successful prefix is `StoreOne` on the prefix's disk. */
  lemma StoreUnfold(d: Disk, dir: Path, items: seq<Item>, i: nat)
    requires i < |items| && Store(d, dir, items[..i]).1.Ok?
    ensures var before := Store(d, dir, items[..i]);
      var after := StoreOne(before.0, dir, items[i]);
      Store(d, dir, items[..i + 1]) == (after.0, if after.1.Err? then Err(after.1.error) else Ok(before.1.value + [after.1.value]))
  {
    assert items[..i + 1][..i] == items[..i];
  }

  /** What a successful `Store` leaves behind, item by item, and the `Wrote` effects in order. */
  predicate StoredAll(d: Disk, d': Disk, dir: Path, items: seq<Item>, saved: seq<AttachmentMeta>) {
    && d'.log == d.log + WroteEach(dir, saved)
    && Filed(d.fs, d', dir, items, saved)
  }

  /**
   * One record per item, in order, each describing its file in `d'`; the file names are
   * pairwise distinct and were all free in `fs0`.
   */
  predicate Filed(fs0: Fs, d': Disk, dir: Path, items: seq<Item>, saved: seq<AttachmentMeta>) {
    && |saved| == |items|
    && (forall k :: 0 <= k < |saved| ==> Stored(d', dir, items[k], saved[k]))
    && (forall k, l :: 0 <= k < l < |saved| ==> saved[k].filename != saved[l].filename)
    && (forall k :: 0 <= k < |saved| ==> dir + [saved[k].filename] !in fs0)
  }

  /** Stored files stay described by their records while the store only grows. */
  lemma FiledKept(fs0: Fs, fs1: Fs, d1: Disk, d2: Disk, dir: Path, items: seq<Item>, saved: seq<AttachmentMeta>)
    requires Filed(fs1, d1, dir, items, saved) && Extends(d1.fs, d2.fs) && Extends(fs0, fs1)
    ensures Filed(fs0, d2, dir, items, saved)
  {
    forall k | 0 <= k < |saved| ensures Stored(d2, dir, items[k], saved[k]) {
      assert Stored(d1, dir, items[k], saved[k]);
    }
  }

  /** One item's record and its file. */
  predicate Stored(d': Disk, dir: Path, item: Item, rec: AttachmentMeta) {
    var p := dir + [rec.filename];
    && ProperName(rec.filename)
    && NamedAfter(rec.filename, item.name)
    && rec.relativePath == "attachments/" + rec.filename
    && p in d'.fs && d'.fs[p].File?
    && match item.payload
       case Content(bytes, contentType, size) =>
         d'.fs[p] == File(bytes) && rec.contentType == contentType.GetOr(OctetStream) && rec.size == size.GetOr(|bytes|)
       case CopyOf(_) =>
         rec.contentType == OctetStream && rec.size == |d'.fs[p].data|
  }

  /** The induction step of `StoreSpec`: the new file is fresh and the earlier ones stay. */
  lemma StoreStep(d: Disk, d1: Disk, d2: Disk, dir: Path, items: seq<Item>, saved: seq<AttachmentMeta>, p: Path)
    requires |items| > 0 && ProperNames(items)
    requires Extends(d.fs, d1.fs) && StoredAll(d, d1, dir, items[..|items| - 1], saved)
    requires UniquePath(d1.fs.Keys, FileSuffix(dir + [items[|items| - 1].name])) == Some(p)
    requires Parent(p) == dir && ProperName(Name(p)) && p !in d1.fs
    requires Place(d1, p, items[|items| - 1].payload) == Ok(d2)
    requires p in d2.fs && d2.fs[p].File?
    ensures StoredAll(d, d2, dir, items, saved + [Describe(d2, p, items[|items| - 1].payload)])
  {
    var n := |items| - 1;
    var item := items[n];
    var rec := Describe(d2, p, item.payload);
    var saved' := saved + [rec];
    assert p == dir + [rec.filename] by {
      assert p == p[..|p| - 1] + [p[|p| - 1]];
    }
    assert d2.fs == d1.fs[p := d2.fs[p]];
    assert d2.log == d1.log + [Wrote(p)];
    assert WroteEach(dir, saved') == WroteEach(dir, saved) + [Wrote(p)];
    StoredNew(d1, d2, dir, item, p);
    forall k | 0 <= k < |saved'| ensures Stored(d2, dir, items[k], saved'[k]) {
      if k < n {
        assert items[..n][k] == items[k];
        StoredKept(d1, d2, dir, items[k], saved[k], p);
      }
    }
    forall k, l | 0 <= k < l < |saved'| ensures saved'[k].filename != saved'[l].filename {
      if l == n {
        assert items[..n][k] == items[k];
        assert Stored(d1, dir, items[k], saved[k]);
      }
    }
  }

  /** A file stored earlier is not disturbed by storing another one at a different path. */
  lemma StoredKept(d1: Disk, d2: Disk, dir: Path, item: Item, rec: AttachmentMeta, p: Path)
    requires Stored(d1, dir, item, rec) && p !in d1.fs && p in d2.fs && d2.fs == d1.fs[p := d2.fs[p]]
    ensures Stored(d2, dir, item, rec)
  {
    var q := dir + [rec.filename];
    assert q in d1.fs;
    assert d2.fs[q] == d1.fs[q];
  }

  /** The file just stored is where its record says, with the content its record describes. */
  lemma StoredNew(d1: Disk, d2: Disk, dir: Path, item: Item, p: Path)
    requires UniquePath(d1.fs.Keys, FileSuffix(dir + [item.name])) == Some(p)
    requires Parent(p) == dir && ProperName(Name(p))
    requires Place(d1, p, item.payload) == Ok(d2) && p in d2.fs && d2.fs[p].File?
    ensures Stored(d2, dir, item, Describe(d2, p, item.payload))
  {
    var rec := Describe(d2, p, item.payload);
    assert p == dir + [rec.filename] by {
      assert p == p[..|p| - 1] + [p[|p| - 1]];
    }
    NamedAfterChoice(d1.fs.Keys, dir, item.name, p);
  }

  /** The name the search picks is the requested one or one of its numbered alternatives. */
  lemma NamedAfterChoice(taken: set<Path>, dir: Path, name: string, p: Path)
    requires UniquePath(taken, FileSuffix(dir + [name])) == Some(p)
    ensures NamedAfter(Name(p), name)
  {
    var s := FileSuffix(dir + [name]);
    ChildOf(dir, name);
    ChildOf([], name);
    if dir + [name] in taken {
      var i := FirstFree(taken, s, 1).value;
      assert p == Parent(dir + [name]) + [CandidateName(s, i)];
      assert CandidateName(s, i) == CandidateName(FileSuffix([name]), i);
    }
  }
}
