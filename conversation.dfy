/**
 * The conversation index (src/conversation/queryConversation.ts): every archived message
 * directory under the received and the sent roots is read back through its
 * `metadata.json`, the records that involve the sender are kept as conversation entries,
 * and the merged entries are sorted by date and cut to the requested length.
 *
 * The directory listing order of `readdir` is given from outside, as a function from a
 * directory to the names it lists; the lemmas that speak about completeness ask that it
 * lists exactly the children present.
 */
module Conversation {
  import opened Wrappers
  import opened FileSystem
  import opened Records
  import opened Address
  import opened ArraySort
  import opened ConversationOrder

  /** `readdir(dir)`: the names of the entries of a directory, in the order the system returns them. */
  type Readdir = Path -> seq<string>

  /** The listing names exactly the entries present below `base`. */
  ghost predicate ListsChildren(fs: Fs, readdir: Readdir, base: Path) {
    forall n :: n in readdir(base) <==> base + [n] in fs
  }

  /** The listed names that are directories, joined onto `base`, in listing order. */
  function ChildDirs(fs: Fs, base: Path, names: seq<string>): (r: seq<Path>)
    ensures forall p :: p in r <==> exists n :: n in names && p == base + [n] && p in fs && fs[p] == Dir
    decreases |names|
  {
    if names == [] then []
    else
      var init := ChildDirs(fs, base, names[..|names| - 1]);
      var p := base + [names[|names| - 1]];
      assert names == names[..|names| - 1] + [names[|names| - 1]];
      if p in fs && fs[p] == Dir then init + [p] else init
  }

  /**
   * `listSubdirectories` (src/conversation/queryConversation.ts:63-75): a missing base
   * directory lists nothing; a base that is a file is an error that propagates.
   */
  function ListSubdirectories(fs: Fs, readdir: Readdir, base: Path): (r: Result<seq<Path>, IoError>)
    ensures r.Err? <==> base in fs && fs[base].File?
    ensures base !in fs ==> r == Ok([])
    ensures r.Ok? ==> forall p :: p in r.value ==> p != [] && Parent(p) == base && p in fs && fs[p] == Dir
  {
    if base !in fs then Ok([])
    else if fs[base].File? then Err(NotADirectory)
    else
      var dirs := ChildDirs(fs, base, readdir(base));
      assert forall p :: p in dirs ==> Parent(p) == base by {
        forall p | p in dirs ensures Parent(p) == base {
          var n :| n in readdir(base) && p == base + [n] && p in fs && fs[p] == Dir;
          assert p[..|p| - 1] == base;
        }
      }
      Ok(dirs)
  }

  /** With a faithful listing, every child directory is listed, and only those. */
  lemma ListSubdirectoriesComplete(fs: Fs, readdir: Readdir, base: Path, dir: Path)
    requires ListsChildren(fs, readdir, base) && base in fs && fs[base] == Dir
    ensures ListSubdirectories(fs, readdir, base).Ok?
    ensures dir in ListSubdirectories(fs, readdir, base).value <==>
      dir != [] && Parent(dir) == base && dir in fs && fs[dir] == Dir
  {
    if dir != [] && Parent(dir) == base && dir in fs && fs[dir] == Dir {
      var n := dir[|dir| - 1];
      assert dir == base + [n];
      assert n in readdir(base);
    }
  }

  /** `readJsonFile` (src/conversation/queryConversation.ts:77-84): any failure reads as nothing. */
  function ReadJsonFile(fs: Fs, codec: JsonCodec, p: Path): (r: Option<Json>)
    ensures r.Some? ==> p in fs && fs[p].File? && codec.decode(fs[p].data) == r
    ensures p in fs && fs[p].File? ==> r == codec.decode(fs[p].data)
  {
    match ReadFile(fs, p)
    case Err(_) => None
    case Ok(data) => codec.decode(data)
  }

  /** The entry a received record gives (src/conversation/queryConversation.ts:104-113). */
  function ReceivedEntry(dir: Path, m: ReceivedRecord): ConversationEntry {
    ConversationEntry(Received, m.messageId, m.from, m.to, None, None, m.subject, m.date, m.savedAt, PathString(dir))
  }

  /** The entry a sent record gives (src/conversation/queryConversation.ts:142-153). */
  function SentEntry(dir: Path, m: SentRecord): ConversationEntry {
    ConversationEntry(Sent, m.messageId, m.from, m.to, Some(m.cc), Some(m.bcc), m.subject, m.date, m.savedAt, PathString(dir))
  }

  /** A sent record involves the sender when its `to`, `cc` or `bcc` names them. */
  predicate IsRecipient(m: SentRecord, sender: string) {
    AddressListContainsEmail(m.to, sender) || AddressListContainsEmail(m.cc, sender) || AddressListContainsEmail(m.bcc, sender)
  }

  /**
   * One iteration of the scan: reads `dir/metadata.json`, checks it against the schema of
   * its direction and against the sender, and gives the entry, or nothing to skip it.
   */
  function PickEntry(fs: Fs, codec: JsonCodec, sender: string, kind: Direction, dir: Path): Option<ConversationEntry> {
    match ReadJsonFile(fs, codec, dir + ["metadata.json"])
    case None => None
    case Some(j) =>
      match kind
      case Received =>
        (match ParseReceivedRecord(j)
         case None => None
         case Some(m) => if AddressListContainsEmail(m.from, sender) then Some(ReceivedEntry(dir, m)) else None)
      case Sent =>
        (match ParseSentRecord(j)
         case None => None
         case Some(m) => if IsRecipient(m, sender) then Some(SentEntry(dir, m)) else None)
  }

  /**
   * An entry is picked exactly from a directory whose metadata reads back, passes the
   * schema and involves the sender; its fields are the record's, and `messageDir` is the
   * directory scanned.
   */
  lemma PickEntrySpec(fs: Fs, codec: JsonCodec, sender: string, kind: Direction, dir: Path)
    ensures PickEntry(fs, codec, sender, kind, dir).Some? <==>
      var j := ReadJsonFile(fs, codec, dir + ["metadata.json"]);
      && j.Some?
      && (kind == Received ==> ParseReceivedRecord(j.value).Some? && AddressListContainsEmail(ParseReceivedRecord(j.value).value.from, sender))
      && (kind == Sent ==> ParseSentRecord(j.value).Some? && IsRecipient(ParseSentRecord(j.value).value, sender))
    ensures PickEntry(fs, codec, sender, kind, dir).Some? ==>
      var e := PickEntry(fs, codec, sender, kind, dir).value;
      var j := ReadJsonFile(fs, codec, dir + ["metadata.json"]).value;
      && e.direction == kind && e.messageDir == PathString(dir)
      && (kind == Received ==> e == ReceivedEntry(dir, ParseReceivedRecord(j).value) && AddressListContainsEmail(e.from, sender))
      && (kind == Sent ==>
            && e == SentEntry(dir, ParseSentRecord(j).value) && e.cc.Some? && e.bcc.Some?
            && (|| AddressListContainsEmail(e.to, sender) || AddressListContainsEmail(e.cc.value, sender)
                || AddressListContainsEmail(e.bcc.value, sender)))
  {
  }

  /** What a scan pushes: the picked entries of the directories, in their order. */
  function Collect<T>(dirs: seq<Path>, pick: Path -> Option<T>): (r: seq<T>)
    ensures |r| <= |dirs|
    decreases |dirs|
  {
    if dirs == [] then []
    else
      var init := Collect(dirs[..|dirs| - 1], pick);
      match pick(dirs[|dirs| - 1])
      case None => init
      case Some(e) => init + [e]
  }

  /** An element is collected iff some directory picks it. */
  lemma {:induction false} CollectMembers<T>(dirs: seq<Path>, pick: Path -> Option<T>, e: T)
    ensures e in Collect(dirs, pick) <==> exists i :: 0 <= i < |dirs| && pick(dirs[i]) == Some(e)
    decreases |dirs|
  {
    if dirs != [] {
      var n := |dirs| - 1;
      CollectMembers(dirs[..n], pick, e);
      if exists i :: 0 <= i < n && dirs[..n][i] == dirs[i] && pick(dirs[i]) == Some(e) {
        var i :| 0 <= i < n && pick(dirs[i]) == Some(e);
        assert pick(dirs[..n][i]) == Some(e);
      }
      if e in Collect(dirs[..n], pick) {
        var i :| 0 <= i < n && pick(dirs[..n][i]) == Some(e);
        assert pick(dirs[i]) == Some(e);
      }
    }
  }

  /** The entries a scan of `dirs` yields for one direction. */
  function ScanEntries(fs: Fs, codec: JsonCodec, sender: string, kind: Direction, dirs: seq<Path>): seq<ConversationEntry> {
    Collect(dirs, Picker(fs, codec, sender, kind))
  }

  function Picker(fs: Fs, codec: JsonCodec, sender: string, kind: Direction): Path -> Option<ConversationEntry> {
    dir => PickEntry(fs, codec, sender, kind, dir)
  }

  /** `queryReceivedMessages` / `querySentMessages` as values: the listing, then the scan. */
  function Messages(fs: Fs, codec: JsonCodec, readdir: Readdir, sender: string, kind: Direction, base: Path): Result<seq<ConversationEntry>, IoError> {
    match ListSubdirectories(fs, readdir, base)
    case Err(e) => Err(e)
    case Ok(dirs) => Ok(ScanEntries(fs, codec, sender, kind, dirs))
  }

  /**
   * The loop of src/conversation/queryConversation.ts:90-114 and 123-155, for any way of
   * picking an entry from a directory: each directory in listing order, its entry appended
   * when there is one.
   */
  method CollectLoop<T>(dirs: seq<Path>, pick: Path -> Option<T>) returns (out: seq<T>)
    ensures out == Collect(dirs, pick)
  {
    out := [];
    var i := 0;
    while i < |dirs|
      invariant 0 <= i <= |dirs|
      invariant out == Collect(dirs[..i], pick)
    {
      assert dirs[..i + 1][..i] == dirs[..i];
      var picked := pick(dirs[i]);
      if picked.Some? {
        out := out + [picked.value];
      }
      i := i + 1;
    }
    assert dirs[..i] == dirs;
  }

  /** The scan of one archive root's listed directories. */
  method ScanDirectories(fs: Fs, codec: JsonCodec, sender: string, kind: Direction, dirs: seq<Path>)
    returns (entries: seq<ConversationEntry>)
    ensures entries == ScanEntries(fs, codec, sender, kind, dirs)
  {
    entries := CollectLoop(dirs, Picker(fs, codec, sender, kind));
  }

  /** `queryReceivedMessages` (src/conversation/queryConversation.ts:86-117). */
  method QueryReceivedMessages(fs: Fs, codec: JsonCodec, readdir: Readdir, sender: string, messagesDir: Path)
    returns (r: Result<seq<ConversationEntry>, IoError>)
    ensures r == Messages(fs, codec, readdir, sender, Received, messagesDir)
  {
    var listed := ListSubdirectories(fs, readdir, messagesDir);
    if listed.Err? {
      return Err(listed.error);
    }
    var entries := ScanDirectories(fs, codec, sender, Received, listed.value);
    return Ok(entries);
  }

  /** `querySentMessages` (src/conversation/queryConversation.ts:119-157). */
  method QuerySentMessages(fs: Fs, codec: JsonCodec, readdir: Readdir, sender: string, sentMessagesDir: Path)
    returns (r: Result<seq<ConversationEntry>, IoError>)
    ensures r == Messages(fs, codec, readdir, sender, Sent, sentMessagesDir)
  {
    var listed := ListSubdirectories(fs, readdir, sentMessagesDir);
    if listed.Err? {
      return Err(listed.error);
    }
    var entries := ScanDirectories(fs, codec, sender, Sent, listed.value);
    return Ok(entries);
  }

  /**
   * Every entry of a scan comes from a listed directory with matching metadata, and with a
   * faithful listing no such directory is dropped.
   */
  lemma MessagesSpec(fs: Fs, codec: JsonCodec, readdir: Readdir, sender: string, kind: Direction, base: Path, e: ConversationEntry)
    requires ListsChildren(fs, readdir, base) && base in fs && fs[base] == Dir
    ensures Messages(fs, codec, readdir, sender, kind, base).Ok?
    ensures e in Messages(fs, codec, readdir, sender, kind, base).value <==>
      exists dir :: dir != [] && Parent(dir) == base && dir in fs && fs[dir] == Dir
        && PickEntry(fs, codec, sender, kind, dir) == Some(e)
  {
    var dirs := ListSubdirectories(fs, readdir, base).value;
    var pick := Picker(fs, codec, sender, kind);
    CollectMembers(dirs, pick, e);
    if exists dir :: dir != [] && Parent(dir) == base && dir in fs && fs[dir] == Dir && PickEntry(fs, codec, sender, kind, dir) == Some(e) {
      var dir :| dir != [] && Parent(dir) == base && dir in fs && fs[dir] == Dir && PickEntry(fs, codec, sender, kind, dir) == Some(e);
      ListSubdirectoriesComplete(fs, readdir, base, dir);
      var i :| 0 <= i < |dirs| && dirs[i] == dir;
      assert pick(dirs[i]) == Some(e);
    }
    if e in Messages(fs, codec, readdir, sender, kind, base).value {
      var i :| 0 <= i < |dirs| && pick(dirs[i]) == Some(e);
      ListSubdirectoriesComplete(fs, readdir, base, dirs[i]);
    }
  }

  /** A missing archive root yields no entries. */
  lemma MissingRootIsEmpty(fs: Fs, codec: JsonCodec, readdir: Readdir, sender: string, kind: Direction, base: Path)
    requires base !in fs
    ensures Messages(fs, codec, readdir, sender, kind, base) == Ok([])
  {
  }

  /** Every entry of a scan has the scan's direction and involves the sender. */
  lemma {:induction false} ScanEntriesMatch(fs: Fs, codec: JsonCodec, sender: string, kind: Direction, dirs: seq<Path>, e: ConversationEntry)
    requires e in ScanEntries(fs, codec, sender, kind, dirs)
    ensures e.direction == kind
    ensures kind == Received ==> e.cc.None? && AddressListContainsEmail(e.from, sender)
    ensures kind == Sent ==>
      && e.cc.Some? && e.bcc.Some?
      && (|| AddressListContainsEmail(e.to, sender) || AddressListContainsEmail(e.cc.value, sender)
          || AddressListContainsEmail(e.bcc.value, sender))
  {
    var pick := Picker(fs, codec, sender, kind);
    CollectMembers(dirs, pick, e);
    var i :| 0 <= i < |dirs| && pick(dirs[i]) == Some(e);
    PickEntrySpec(fs, codec, sender, kind, dirs[i]);
  }

  /** A sent entry names the sender in its `to`, `cc` or `bcc`. */
  predicate SentInvolves(e: ConversationEntry, sender: string) {
    && e.cc.Some? && e.bcc.Some?
    && (|| AddressListContainsEmail(e.to, sender) || AddressListContainsEmail(e.cc.value, sender)
        || AddressListContainsEmail(e.bcc.value, sender))
  }

  // ------------------------------------------------------------------ the query

  datatype QueryOptions = QueryOptions(
    sender: string,
    includeSent: bool,
    limit: Option<int>,
    messagesDir: Path,
    sentMessagesDir: Path)

  /**
   * `merged.slice(0, limit)` for an integer `limit`: a negative limit counts back from the
   * end, and no limit keeps everything.
   */
  function Limit<T>(s: seq<T>, limit: Option<int>): (r: seq<T>)
    ensures |r| <= |s| && r == s[..|r|]
    ensures limit.None? ==> r == s
    ensures limit.Some? && limit.value >= 0 ==> |r| == if limit.value < |s| then limit.value else |s|
    ensures limit.Some? && limit.value < 0 ==> |r| == if |s| + limit.value > 0 then |s| + limit.value else 0
  {
    match limit
    case None => s
    case Some(k) =>
      if k >= 0 then (if k < |s| then s[..k] else s)
      else if |s| + k > 0 then s[..|s| + k]
      else []
  }

  /** The merged entries before the limit: the received ones, then the sent ones when asked for. */
  function Merged(fs: Fs, codec: JsonCodec, readdir: Readdir, options: QueryOptions): Result<seq<ConversationEntry>, IoError> {
    var sender := NormalizeEmail(options.sender);
    match Messages(fs, codec, readdir, sender, Received, options.messagesDir)
    case Err(e) => Err(e)
    case Ok(received) =>
      if !options.includeSent then Ok(received)
      else
        match Messages(fs, codec, readdir, sender, Sent, options.sentMessagesDir)
        case Err(e) => Err(e)
        case Ok(sent) => Ok(received + sent)
  }

  /** `queryConversation` (src/conversation/queryConversation.ts:159-174). */
  method QueryConversation(fs: Fs, codec: JsonCodec, readdir: Readdir, parse: DateParser, lc: Collator, options: QueryOptions)
    returns (r: Result<seq<ConversationEntry>, IoError>)
    ensures r.Err? <==> Merged(fs, codec, readdir, options).Err?
    ensures r.Ok? ==> r.value == Limit(SortEntries(parse, lc, Merged(fs, codec, readdir, options).value), options.limit)
  {
    var sender := NormalizeEmail(options.sender);
    var received := QueryReceivedMessages(fs, codec, readdir, sender, options.messagesDir);
    if received.Err? {
      return Err(received.error);
    }
    var sent: seq<ConversationEntry> := [];
    if options.includeSent {
      var s := QuerySentMessages(fs, codec, readdir, sender, options.sentMessagesDir);
      if s.Err? {
        return Err(s.error);
      }
      sent := s.value;
    }
    var merged := received.value + sent;
    assert !options.includeSent ==> merged == received.value;
    assert Merged(fs, codec, readdir, options) == Ok(merged);
    var entries := SortAndLimit(merged, parse, lc, options.limit);
    return Ok(entries);
  }

  /** The merged entries sorted in place, then sliced (src/conversation/queryConversation.ts:167-173). */
  method SortAndLimit(merged: seq<ConversationEntry>, parse: DateParser, lc: Collator, limit: Option<int>)
    returns (r: seq<ConversationEntry>)
    ensures r == Limit(SortEntries(parse, lc, merged), limit)
  {
    var a := new ConversationEntry[|merged|](i requires 0 <= i < |merged| => merged[i]);
    assert a[..] == merged;
    SortByConversationDate(a, parse, lc);
    r := Limit(a[..], limit);
  }

  /**
   * Without a limit the result is the merged entries, each as often as before, sorted by
   * conversation date; without `includeSent` it holds no sent entry; every entry involves
   * the sender, whatever the case and surrounding whitespace of the address asked for.
   */
  lemma QueryConversationSpec(fs: Fs, codec: JsonCodec, readdir: Readdir, parse: DateParser, lc: Collator, options: QueryOptions)
    requires IsCollation(lc)
    requires Merged(fs, codec, readdir, options).Ok?
    ensures var merged := Merged(fs, codec, readdir, options).value;
      var sorted := SortEntries(parse, lc, merged);
      && Sorted(ByDate(parse, lc), sorted) && multiset(sorted) == multiset(merged)
    ensures forall e :: e in Merged(fs, codec, readdir, options).value ==>
      (!options.includeSent ==> e.direction == Received)
      && (e.direction == Received ==> AddressListContainsEmail(e.from, options.sender))
      && (e.direction == Sent ==> SentInvolves(e, options.sender))
  {
    var merged := Merged(fs, codec, readdir, options).value;
    SortEntriesSpec(parse, lc, merged);
    var sender := NormalizeEmail(options.sender);
    var received := Messages(fs, codec, readdir, sender, Received, options.messagesDir).value;
    var dirs := ListSubdirectories(fs, readdir, options.messagesDir).value;
    forall e | e in merged
      ensures (!options.includeSent ==> e.direction == Received)
      ensures e.direction == Received ==> AddressListContainsEmail(e.from, options.sender)
      ensures e.direction == Sent ==> SentInvolves(e, options.sender)
    {
      AddressListContainsEmailSpec(e.from, options.sender);
      if e in received {
        ScanEntriesMatch(fs, codec, sender, Received, dirs, e);
      } else {
        var sentDirs := ListSubdirectories(fs, readdir, options.sentMessagesDir).value;
        ScanEntriesMatch(fs, codec, sender, Sent, sentDirs, e);
        AddressListContainsEmailSpec(e.to, options.sender);
        AddressListContainsEmailSpec(e.cc.value, options.sender);
        AddressListContainsEmailSpec(e.bcc.value, options.sender);
      }
    }
  }

  /** With both roots missing the conversation is empty. */
  lemma MissingRootsGiveNothing(fs: Fs, codec: JsonCodec, readdir: Readdir, options: QueryOptions)
    requires options.messagesDir !in fs && (options.includeSent ==> options.sentMessagesDir !in fs)
    ensures Merged(fs, codec, readdir, options) == Ok([])
  {
    var sender := NormalizeEmail(options.sender);
    MissingRootIsEmpty(fs, codec, readdir, sender, Received, options.messagesDir);
    if options.includeSent {
      MissingRootIsEmpty(fs, codec, readdir, sender, Sent, options.sentMessagesDir);
      var none: seq<ConversationEntry> := [];
      assert none + none == none;
    }
  }

  /**
   * The limit applies after sorting: a limit of `k >= 0` keeps the first `k` entries of the
   * sorted conversation, and a limit of 1 keeps its oldest entry, one not after any other.
   */
  lemma LimitKeepsOldest(parse: DateParser, lc: Collator, merged: seq<ConversationEntry>, k: int)
    requires IsCollation(lc) && 0 <= k
    ensures var r := Limit(SortEntries(parse, lc, merged), Some(k));
      |r| == (if k < |merged| then k else |merged|) && r == SortEntries(parse, lc, merged)[..|r|]
    ensures k == 1 && merged != [] ==>
      var r := Limit(SortEntries(parse, lc, merged), Some(k));
      |r| == 1 && r[0] in merged && forall e :: e in merged ==> Compare(parse, lc, r[0], e) <= 0
  {
    var sorted := SortEntries(parse, lc, merged);
    SortEntriesSpec(parse, lc, merged);
    if k == 1 && merged != [] {
      OldestFirst(parse, lc, merged);
    }
  }

  /** The first entry of the sorted conversation is one of its entries and not after any other. */
  lemma OldestFirst(parse: DateParser, lc: Collator, merged: seq<ConversationEntry>)
    requires IsCollation(lc) && merged != []
    ensures var sorted := SortEntries(parse, lc, merged);
      |sorted| > 0 && sorted[0] in merged && forall e :: e in merged ==> Compare(parse, lc, sorted[0], e) <= 0
  {
    var sorted := SortEntries(parse, lc, merged);
    SortEntriesSpec(parse, lc, merged);
    CompareConsistent(parse, lc);
    assert sorted[0] in multiset(merged);
    forall e | e in merged ensures Compare(parse, lc, sorted[0], e) <= 0 {
      assert e in multiset(sorted);
      var j :| 0 <= j < |sorted| && sorted[j] == e;
      if j == 0 {
        assert ByDate(parse, lc)(e, e) <= 0;
      } else {
        assert ByDate(parse, lc)(sorted[0], sorted[j]) <= 0;
      }
    }
  }
}
