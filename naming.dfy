/**
 * How the archive names things on disk: the compact timestamp at the head of a message
 * directory, the sanitised attachment file name, the sanitised message-id segment of a
 * sent message, and the search for a free name (`name(1).ext`, `dir_1`, ...) when the
 * natural one is taken. The receive side (src/receive/saveMessage.ts) and the send side
 * (src/send/saveSentMessage.ts) carry identical copies of these helpers; they are
 * modelled once.
 */
module ArchiveNaming {
  import opened Wrappers
  import opened Text
  import opened FileSystem

  /** Why writing a message into the archive stopped. */
  datatype SaveError =
    | Io(error: IoError)   // a file-system call failed
    | Exhausted            // all 10000 numbered alternatives of a name were taken
    | InvalidDate          // `toISOString` on an invalid date throws

  // ---------------------------------------------------------------- timestamps

  predicate DigitsAt(s: string, lo: nat, hi: nat)
    requires lo <= hi <= |s|
  {
    forall i :: lo <= i < hi ==> IsDigit(s[i])
  }

  /** The shape `Date.prototype.toISOString` produces for years 0000-9999: `YYYY-MM-DDTHH:MM:SS.sssZ`. */
  predicate IsIsoTimestamp(s: string) {
    && |s| == 24
    && DigitsAt(s, 0, 4) && s[4] == '-' && DigitsAt(s, 5, 7) && s[7] == '-' && DigitsAt(s, 8, 10)
    && s[10] == 'T' && DigitsAt(s, 11, 13) && s[13] == ':' && DigitsAt(s, 14, 16) && s[16] == ':'
    && DigitsAt(s, 17, 19) && s[19] == '.' && DigitsAt(s, 20, 23) && s[23] == 'Z'
  }

  /** The text ends in `.ddd` followed by `Z`. */
  predicate EndsWithMillis(s: string) {
    |s| >= 5 && s[|s| - 5] == '.' && DigitsAt(s, |s| - 4, |s| - 1) && s[|s| - 1] == 'Z'
  }

  /** `formatTimestamp` (src/receive/saveMessage.ts:39-41): drop `-` and `:`, then turn a trailing `.dddZ` into `Z`. */
  function FormatTimestamp(iso: string): string {
    var compact := Without(iso, {'-', ':'});
    if EndsWithMillis(compact) then compact[..|compact| - 5] + "Z" else compact
  }

  lemma {:induction false} WithoutAppend(a: string, b: string, seps: set<char>)
    ensures Without(a + b, seps) == Without(a, seps) + Without(b, seps)
    decreases |a|
  {
    if a != [] {
      assert (a + b)[0] == a[0];
      assert (a + b)[1..] == a[1..] + b;
      WithoutAppend(a[1..], b, seps);
    } else {
      assert a + b == b;
    }
  }

  lemma {:induction false} WithoutKeeps(a: string, seps: set<char>)
    requires forall i :: 0 <= i < |a| ==> a[i] !in seps
    ensures Without(a, seps) == a
    decreases |a|
  {
    if a != [] {
      WithoutKeeps(a[1..], seps);
    }
  }

  lemma PeelKeep(s: string, i: nat, j: nat, seps: set<char>)
    requires i <= j <= |s|
    requires forall k :: i <= k < j ==> s[k] !in seps
    ensures Without(s[i..], seps) == s[i..j] + Without(s[j..], seps)
  {
    assert s[i..] == s[i..j] + s[j..];
    WithoutAppend(s[i..j], s[j..], seps);
    WithoutKeeps(s[i..j], seps);
  }

  lemma PeelDrop(s: string, i: nat, seps: set<char>)
    requires i < |s| && s[i] in seps
    ensures Without(s[i..], seps) == Without(s[i + 1..], seps)
  {
    assert s[i..][1..] == s[i + 1..];
  }

  /** Removing `-` and `:` from an ISO timestamp leaves its four runs of date and time text. */
  lemma {:induction false} CompactIso(iso: string)
    requires IsIsoTimestamp(iso)
    ensures Without(iso, {'-', ':'}) == iso[0..4] + (iso[5..7] + (iso[8..13] + (iso[14..16] + iso[17..24])))
  {
    var seps := {'-', ':'};
    IsoRunsFree(iso);
    PeelKeep(iso, 17, 24, seps);
    assert Without(iso[24..], seps) == [];
    PeelRun(iso, 14, 16, seps);
    PeelRun(iso, 8, 13, seps);
    PeelRun(iso, 5, 7, seps);
    PeelRun(iso, 0, 4, seps);
    assert iso[0..] == iso;
  }

  /** A run free of separators, then a separator: the run is kept and the separator dropped. */
  lemma PeelRun(s: string, i: nat, j: nat, seps: set<char>)
    requires i <= j < |s| && s[j] in seps
    requires forall k :: i <= k < j ==> s[k] !in seps
    ensures Without(s[i..], seps) == s[i..j] + Without(s[j + 1..], seps)
  {
    PeelKeep(s, i, j, seps);
    PeelDrop(s, j, seps);
  }

  /** The five runs between the `-` and `:` of an ISO timestamp hold neither. */
  lemma IsoRunsFree(iso: string)
    requires IsIsoTimestamp(iso)
    ensures iso[4] in {'-', ':'} && iso[7] in {'-', ':'} && iso[13] in {'-', ':'} && iso[16] in {'-', ':'}
    ensures forall k :: 0 <= k < 4 ==> iso[k] !in {'-', ':'}
    ensures forall k :: 5 <= k < 7 ==> iso[k] !in {'-', ':'}
    ensures forall k :: 8 <= k < 13 ==> iso[k] !in {'-', ':'}
    ensures forall k :: 14 <= k < 16 ==> iso[k] !in {'-', ':'}
    ensures forall k :: 17 <= k < 24 ==> iso[k] !in {'-', ':'}
  {
    assert DigitsAt(iso, 0, 4) && DigitsAt(iso, 5, 7) && DigitsAt(iso, 8, 10) && DigitsAt(iso, 11, 13);
    assert DigitsAt(iso, 14, 16) && DigitsAt(iso, 17, 19) && DigitsAt(iso, 20, 23);
  }

  /**
   * On an ISO timestamp the result is the 16-character basic form `YYYYMMDDTHHMMSSZ`:
   * the date and time digits in order, with the milliseconds dropped.
   */
  lemma {:induction false} FormatTimestampBasicForm(iso: string)
    requires IsIsoTimestamp(iso)
    ensures FormatTimestamp(iso) ==
      iso[0..4] + iso[5..7] + iso[8..10] + iso[10..11] + iso[11..13] + iso[14..16] + iso[17..19] + "Z"
    ensures |FormatTimestamp(iso)| == 16 && FormatTimestamp(iso)[8] == 'T' && FormatTimestamp(iso)[15] == 'Z'
  {
    CompactIso(iso);
    var compact := Without(iso, {'-', ':'});
    assert |compact| == 20;
    assert compact[15..] == iso[19..24];
    assert EndsWithMillis(compact);
    assert compact[..15] == iso[0..4] + iso[5..7] + iso[8..10] + iso[10..11] + iso[11..13] + iso[14..16] + iso[17..19];
  }

  lemma IsoHasNoSlash(iso: string)
    requires IsIsoTimestamp(iso)
    ensures '/' !in iso
  {
    forall i | 0 <= i < |iso| ensures iso[i] != '/' {
      if i < 4 { assert DigitsAt(iso, 0, 4); }
      else if 5 <= i < 7 { assert DigitsAt(iso, 5, 7); }
      else if 8 <= i < 10 { assert DigitsAt(iso, 8, 10); }
      else if 11 <= i < 13 { assert DigitsAt(iso, 11, 13); }
      else if 14 <= i < 16 { assert DigitsAt(iso, 14, 16); }
      else if 17 <= i < 19 { assert DigitsAt(iso, 17, 19); }
      else if 20 <= i < 23 { assert DigitsAt(iso, 20, 23); }
    }
  }

  /** The compact timestamp is sixteen characters without `/`. */
  lemma TimestampHasNoSlash(now: string)
    requires IsIsoTimestamp(now)
    ensures |FormatTimestamp(now)| == 16 && '/' !in FormatTimestamp(now)
  {
    FormatTimestampBasicForm(now);
    IsoHasNoSlash(now);
    var t := FormatTimestamp(now);
    forall i | 0 <= i < |t| ensures t[i] != '/' {
      if i < 15 {
        assert t[i] in now;
      }
    }
  }

  // ---------------------------------------------------------------- sanitising

  /** Which characters a sanitised name keeps. */
  datatype NameAlphabet =
    | FileNameChars   // `[a-zA-Z0-9.()_\- ]` for attachment names
    | SegmentChars    // `[a-zA-Z0-9._-]` for the message-id segment

  predicate Allowed(c: char, k: NameAlphabet) {
    || IsAsciiLetter(c) || IsDigit(c) || c == '.' || c == '_' || c == '-'
    || (k == FileNameChars && (c == '(' || c == ')' || c == ' '))
  }

  predicate AllAllowed(s: string, k: NameAlphabet) {
    forall i :: 0 <= i < |s| ==> Allowed(s[i], k)
  }

  /** Drops the leading run of characters outside the alphabet. */
  function DropDisallowed(s: string, k: NameAlphabet): (r: string)
    ensures |r| <= |s|
    ensures r == [] || Allowed(r[0], k)
  {
    if s != [] && !Allowed(s[0], k) then DropDisallowed(s[1..], k) else s
  }

  /** `replace(/[^alphabet]+/g, "_")`: every maximal run of other characters becomes one `_`. */
  function ReplaceDisallowed(s: string, k: NameAlphabet): string
    decreases |s|
  {
    if s == [] then []
    else if Allowed(s[0], k) then [s[0]] + ReplaceDisallowed(s[1..], k)
    else "_" + ReplaceDisallowed(DropDisallowed(s[1..], k), k)
  }

  /** The replacement uses only the alphabet, and leaves a string already in it unchanged. */
  lemma {:induction false} ReplaceDisallowedSpec(s: string, k: NameAlphabet)
    ensures AllAllowed(ReplaceDisallowed(s, k), k)
    ensures AllAllowed(s, k) ==> ReplaceDisallowed(s, k) == s
    ensures |ReplaceDisallowed(s, k)| <= |s|
    decreases |s|
  {
    if s != [] {
      if Allowed(s[0], k) {
        ReplaceDisallowedSpec(s[1..], k);
      } else {
        ReplaceDisallowedSpec(DropDisallowed(s[1..], k), k);
      }
    }
  }

  /** The steps of `sanitizeFilename` before its fallback. */
  function SanitizedStem(filename: string): (r: string)
    ensures AllAllowed(r, FileNameChars) && NoEdgeWhitespace(r) && '/' !in r
  {
    var replaced := ReplaceDisallowed(Basename(Trim(filename)), FileNameChars);
    ReplaceDisallowedSpec(Basename(Trim(filename)), FileNameChars);
    TrimKeepsAllowed(replaced, FileNameChars);
    AllowedHasNoSlash(Trim(replaced), FileNameChars);
    Trim(replaced)
  }

  /** Trimming a string in the alphabet leaves one in the alphabet. */
  lemma TrimKeepsAllowed(s: string, k: NameAlphabet)
    requires AllAllowed(s, k)
    ensures AllAllowed(Trim(s), k)
  {
    TrimSlice(s);
    var a := |s| - |TrimStart(s)|;
    var r := Trim(s);
    forall i | 0 <= i < |r| ensures Allowed(r[i], k) {
      assert r[i] == s[a + i];
    }
  }

  /** `sanitizeFilename` as written (src/receive/saveMessage.ts:43-47, src/send/saveSentMessage.ts:32-36). */
  function SanitizeFilenameAsWritten(filename: string): (r: string)
    ensures r != [] && '/' !in r
  {
    var s := SanitizedStem(filename);
    FallbackNameAllowed();
    var r := if |s| > 0 then s else "attachment";
    AllowedHasNoSlash(r, FileNameChars);
    r
  }

  /**
   * `sanitizeFilename` with "." and ".." treated like the empty name: a name that
   * `path.join` would not keep inside the attachments directory falls back to "attachment".
   */
  function SanitizeFilename(filename: string): (r: string)
    ensures r != [] && r != "." && r != ".." && '/' !in r
    ensures AllAllowed(r, FileNameChars) && NoEdgeWhitespace(r)
  {
    var s := SanitizedStem(filename);
    FallbackNameAllowed();
    var r := if s == "" || s == "." || s == ".." then "attachment" else s;
    AllowedHasNoSlash(r, FileNameChars);
    r
  }

  lemma AllowedHasNoSlash(s: string, k: NameAlphabet)
    requires AllAllowed(s, k)
    ensures '/' !in s
  {
    forall i | 0 <= i < |s| ensures s[i] != '/' {
      assert Allowed(s[i], k);
    }
  }

  lemma LetterWordAllowed(w: string, k: NameAlphabet)
    requires forall i :: 0 <= i < |w| ==> 'a' <= w[i] <= 'z'
    ensures AllAllowed(w, k)
  {
    forall i | 0 <= i < |w| ensures Allowed(w[i], k) {
      assert IsAsciiLetter(w[i]);
    }
  }

  /** "attachment" is a name the sanitiser keeps. */
  lemma FallbackNameAllowed()
    ensures AllAllowed("attachment", FileNameChars) && NoEdgeWhitespace("attachment")
  {
    LetterWordAllowed("attachment", FileNameChars);
  }

  /** Sanitising a sanitised name changes nothing. */
  lemma {:induction false} SanitizeFilenameIdempotent(filename: string)
    ensures SanitizeFilename(SanitizeFilename(filename)) == SanitizeFilename(filename)
  {
    var r := SanitizeFilename(filename);
    TrimNoop(r);
    assert Trim(r) == r;
    BasenameOfName(r);
    assert Basename(r) == r;
    ReplaceDisallowedSpec(r, FileNameChars);
    assert ReplaceDisallowed(r, FileNameChars) == r;
    assert SanitizedStem(r) == r;
  }

  /** The two versions differ only where the one as written yields "." or "..". */
  lemma SanitizeFilenameAgrees(filename: string)
    ensures SanitizeFilenameAsWritten(filename) != "." && SanitizeFilenameAsWritten(filename) != ".."
            <==> SanitizeFilenameAsWritten(filename) == SanitizeFilename(filename)
  {
  }

  /** ".." passes every step of the sanitiser unchanged. */
  lemma DotDotSurvives(dd: string)
    requires dd == ".."
    ensures SanitizedStem(dd) == dd
  {
    assert !IsWhitespace(dd[0]) && !IsWhitespace(dd[1]);
    TrimNoop(dd);
    assert '/' !in dd;
    BasenameOfName(dd);
    assert AllAllowed(dd, FileNameChars);
    ReplaceDisallowedSpec(dd, FileNameChars);
  }

  /** Leading whitespace is trimmed before anything else, so " .." becomes ".." too. */
  lemma SpaceDotDotSurvives(sdd: string)
    requires sdd == " .."
    ensures SanitizedStem(sdd) == ".."
  {
    var dd := sdd[1..];
    assert sdd == sdd[..1] + dd + [];
    assert !IsWhitespace(dd[0]) && !IsWhitespace(dd[1]);
    TrimPadded(sdd[..1], dd, []);
    DotDotSurvives(dd);
  }

  /**
   * As written, the attachment names ".." and " .." survive sanitising, and joining ".."
   * onto the attachments directory of a message yields the message directory itself.
   */
  lemma SanitizeFilenameAsWrittenEscapes(messageDir: Path, dd: string, sdd: string)
    requires dd == ".." && sdd == " .."
    ensures SanitizeFilenameAsWritten(dd) == dd
    ensures SanitizeFilenameAsWritten(sdd) == dd
    ensures Join(messageDir + ["attachments"], SanitizeFilenameAsWritten(dd)) == messageDir
  {
    DotDotSurvives(dd);
    SpaceDotDotSurvives(sdd);
    assert (messageDir + ["attachments"])[..|messageDir|] == messageDir;
  }

  /**
   * Where an attachment named ".." is stored (src/receive/saveMessage.ts:153-156, and
   * src/send/saveSentMessage.ts:110-113 for a source file named " .."). As written, the
   * target is the message directory itself. That directory exists, so the unique-name search
   * moves to a sibling of the message directory, outside it and outside `attachments/`. With
   * the corrected sanitiser the target is `attachments/attachment`.
   */
  lemma DotDotTargetLeavesMessageDir(taken: set<Path>, messageDir: Path, dd: string)
    requires dd == ".." && |messageDir| > 0 && ProperName(Name(messageDir)) && messageDir in taken
    ensures var target := Join(messageDir + ["attachments"], SanitizeFilenameAsWritten(dd));
      && target == messageDir
      && UniquePath(taken, FileSuffix(target)) != Some(target)
      && (UniquePath(taken, FileSuffix(target)).Some? ==>
            var p := UniquePath(taken, FileSuffix(target)).value;
            Parent(p) == Parent(messageDir) && p != messageDir && !(messageDir <= p))
  {
    SanitizeFilenameAsWrittenEscapes(messageDir, dd, " ..");
    var target := Join(messageDir + ["attachments"], SanitizeFilenameAsWritten(dd));
    assert target == messageDir;
    SiblingOfTaken(taken, messageDir);
  }

  /** With the corrected sanitiser an attachment named ".." is stored as `attachments/attachment`. */
  lemma DotDotStaysInAttachments(messageDir: Path, dd: string)
    requires dd == ".."
    ensures Join(messageDir + ["attachments"], SanitizeFilename(dd)) == messageDir + ["attachments", "attachment"]
  {
    DotDotFallsBack(dd);
  }

  /** A taken path is never chosen, and whatever is chosen instead lies beside it. */
  lemma SiblingOfTaken(taken: set<Path>, target: Path)
    requires |target| > 0 && ProperName(Name(target)) && target in taken
    ensures UniquePath(taken, FileSuffix(target)) != Some(target)
    ensures UniquePath(taken, FileSuffix(target)).Some? ==>
      var p := UniquePath(taken, FileSuffix(target)).value;
      Parent(p) == Parent(target) && p != target && !(target <= p)
  {
    var s := FileSuffix(target);
    UniquePathSpec(taken, s);
    UniquePathShape(taken, s);
    if UniquePath(taken, s).Some? {
      var p := UniquePath(taken, s).value;
      assert |p| == |Parent(p)| + 1 == |target|;
    }
  }

  /** The corrected sanitiser turns ".." into "attachment". */
  lemma DotDotFallsBack(dd: string)
    requires dd == ".."
    ensures SanitizeFilename(dd) == "attachment"
  {
    DotDotSurvives(dd);
  }

  /** Two spaces either side are trimmed away. */
  lemma TrimExample()
    ensures Trim("  ../../inv@lid?.pdf  ") == "../../inv@lid?.pdf"
  {
    var g := "../../inv@lid?.pdf";
    assert "  ../../inv@lid?.pdf  " == "  " + g + "  ";
    TrimPadded("  ", g, "  ");
  }

  /** The directory part `../../` is dropped. */
  lemma BasenameExample()
    ensures Basename("../../inv@lid?.pdf") == "inv@lid?.pdf"
  {
    var g := "../../inv@lid?.pdf";
    assert StripTrailingSlashes(g) == g;
    LastSegmentAfterSlash(g, 5);
    assert g[6..] == "inv@lid?.pdf";
    BasenameOfName("inv@lid?.pdf");
  }

  /** The name sanitised in the test suite of the receive side. */
  lemma SanitizeFilenameExample()
    ensures SanitizeFilename("  ../../inv@lid?.pdf  ") == "inv_lid_.pdf"
  {
    SanitizedStemExample();
  }

  lemma SanitizedStemExample()
    ensures SanitizedStem("  ../../inv@lid?.pdf  ") == "inv_lid_.pdf"
  {
    TrimExample();
    BasenameExample();
    ReplaceExample();
    TrimNoop("inv_lid_.pdf");
  }

  /** The last segment is what follows the last `/`. */
  lemma {:induction false} LastSegmentAfterSlash(s: string, k: nat)
    requires k < |s| && s[k] == '/' && '/' !in s[k + 1..]
    ensures LastSegment(s) == s[k + 1..]
    decreases |s|
  {
    if k + 1 < |s| {
      assert s[..|s| - 1][k + 1..] == s[k + 1..|s| - 1];
      assert '/' !in s[k + 1..|s| - 1] by {
        forall i | k + 1 <= i < |s| - 1 ensures s[i] != '/' {
          assert s[i] == s[k + 1..][i - k - 1];
        }
      }
      assert s[|s| - 1] == s[k + 1..][|s| - k - 2];
      LastSegmentAfterSlash(s[..|s| - 1], k);
      assert s[k + 1..] == s[k + 1..|s| - 1] + [s[|s| - 1]];
    }
  }

  /** A prefix already in the alphabet is copied as it is. */
  lemma {:induction false} ReplaceKeeps(s: string, j: nat, k: NameAlphabet)
    requires j <= |s| && AllAllowed(s[..j], k)
    ensures ReplaceDisallowed(s, k) == s[..j] + ReplaceDisallowed(s[j..], k)
    decreases j
  {
    if j > 0 {
      assert Allowed(s[..j][0], k);
      assert s[1..][..j - 1] == s[1..j];
      var t := s[1..][..j - 1];
      forall i | 0 <= i < |t| ensures Allowed(t[i], k) {
        assert t[i] == s[..j][i + 1];
      }
      ReplaceKeeps(s[1..], j - 1, k);
      assert s[1..][j - 1..] == s[j..];
      assert s[..j] == [s[0]] + s[1..j];
    }
  }

  /** Each of `@` and `?` becomes `_`. */
  lemma ReplaceExample()
    ensures ReplaceDisallowed("inv@lid?.pdf", FileNameChars) == "inv_lid_.pdf"
  {
    LetterWordAllowed("inv", FileNameChars);
    ReplaceTailExample();
    SplitInv();
    ReplaceRun("inv", '@', "lid?.pdf", FileNameChars);
    JoinInv();
  }

  lemma ReplaceTailExample()
    ensures ReplaceDisallowed("lid?.pdf", FileNameChars) == "lid_.pdf"
  {
    var k := FileNameChars;
    LetterWordAllowed("lid", k);
    LetterWordAllowed("pdf", k);
    SplitPdf();
    SplitLid();
    ReplaceRun("lid", '?', ".pdf", k);
    ReplaceDisallowedSpec(".pdf", k);
    JoinLid();
  }

  lemma SplitInv() ensures "inv@lid?.pdf" == "inv" + ['@'] + "lid?.pdf" {}
  lemma JoinInv() ensures "inv" + "_" + "lid_.pdf" == "inv_lid_.pdf" {}
  lemma SplitLid() ensures "lid?.pdf" == "lid" + ['?'] + ".pdf" {}
  lemma JoinLid() ensures "lid" + "_" + ".pdf" == "lid_.pdf" {}
  lemma SplitPdf() ensures ".pdf" == ['.'] + "pdf" {}

  /** One character outside the alphabet between two allowed stretches becomes `_`. */
  lemma ReplaceRun(a: string, x: char, b: string, k: NameAlphabet)
    requires AllAllowed(a, k) && !Allowed(x, k) && (b == [] || Allowed(b[0], k))
    ensures ReplaceDisallowed(a + [x] + b, k) == a + "_" + ReplaceDisallowed(b, k)
  {
    var s := a + [x] + b;
    assert s[..|a|] == a;
    ReplaceKeeps(s, |a|, k);
    assert s[|a|..] == [x] + b;
    assert ([x] + b)[1..] == b;
  }

  /** Drops the leading and the trailing run of `_`: `replace(/^_+|_+$/g, "")`. */
  function StripUnderscores(s: string): (r: string)
    ensures r == [] || (r[0] != '_' && r[|r| - 1] != '_')
    ensures forall i :: 0 <= i < |r| ==> r[i] in s
  {
    var a := DropLeading(s, '_');
    var r := DropTrailing(a, '_');
    forall i | 0 <= i < |r| ensures r[i] in s {
      var j :| 0 <= j < |a| && a[j] == r[i];
    }
    r
  }

  function DropLeading(s: string, c: char): (r: string)
    ensures |r| <= |s| && forall i :: 0 <= i < |r| ==> r[i] in s
    ensures r == [] || r[0] != c
  {
    if s != [] && s[0] == c then DropLeading(s[1..], c) else s
  }

  function DropTrailing(s: string, c: char): (r: string)
    ensures |r| <= |s| && forall i :: 0 <= i < |r| ==> r[i] in s
    ensures r == [] || r[|r| - 1] != c
    ensures r != [] ==> r[0] == s[0]
  {
    if s != [] && s[|s| - 1] == c then DropTrailing(s[..|s| - 1], c) else s
  }

  /**
   * `sanitizeSegment` (src/send/saveSentMessage.ts:27-30): the message id as a directory-name
   * segment; it is never empty, never has `_` at either end and uses only `[a-zA-Z0-9._-]`.
   */
  function SanitizeSegment(value: string): (r: string)
    ensures r != [] && r[0] != '_' && r[|r| - 1] != '_'
    ensures AllAllowed(r, SegmentChars) && '/' !in r
  {
    ReplaceDisallowedSpec(value, SegmentChars);
    var s := StripUnderscores(ReplaceDisallowed(value, SegmentChars));
    var r := if |s| > 0 then s else "message";
    LetterWordAllowed("message", SegmentChars);
    AllowedHasNoSlash(r, SegmentChars);
    r
  }

  // ---------------------------------------------------------------- free names

  /** The largest number tried when looking for a free name. */
  const MaxSuffix: nat := 10000

  /** How numbered alternatives of a taken name are formed. */
  datatype Scheme =
    | FileSuffix(target: Path)   // `stem(i).ext` beside the file (ensureUniqueFilePath)
    | DirSuffix(base: Path)      // `base_i` beside the directory (ensureUniqueMessageDir)

  function Original(s: Scheme): Path {
    match s
    case FileSuffix(t) => t
    case DirSuffix(b) => b
  }

  function CandidateName(s: Scheme, i: nat): string {
    match s
    case FileSuffix(t) => Stem(Name(t)) + "(" + NatToString(i) + ")" + Extname(Name(t))
    case DirSuffix(b) => Name(b) + "_" + NatToString(i)
  }

  /** The `i`-th alternative: a sibling of the original. */
  function Candidate(s: Scheme, i: nat): Path {
    Parent(Original(s)) + [CandidateName(s, i)]
  }

  /** The least `j` in `[i, MaxSuffix]` whose alternative is free. */
  function FirstFree(taken: set<Path>, s: Scheme, i: nat): (r: Option<nat>)
    requires 1 <= i
    ensures r.Some? ==> i <= r.value <= MaxSuffix && Candidate(s, r.value) !in taken
    ensures r.Some? ==> forall j :: i <= j < r.value ==> Candidate(s, j) in taken
    ensures r.None? ==> forall j :: i <= j <= MaxSuffix ==> Candidate(s, j) in taken
    decreases MaxSuffix + 1 - i
  {
    if i > MaxSuffix then None
    else if Candidate(s, i) !in taken then Some(i)
    else FirstFree(taken, s, i + 1)
  }

  /** The name a writer ends up with: the original if free, else the first free alternative. */
  function UniquePath(taken: set<Path>, s: Scheme): Option<Path> {
    if Original(s) !in taken then Some(Original(s))
    else match FirstFree(taken, s, 1)
      case None => None
      case Some(i) => Some(Candidate(s, i))
  }

  /**
   * The chosen name is free; it is the original when that is free, otherwise the first
   * free alternative in order; there is none only when the original and all 10000
   * alternatives are taken.
   */
  lemma UniquePathSpec(taken: set<Path>, s: Scheme)
    ensures UniquePath(taken, s).Some? ==> UniquePath(taken, s).value !in taken
    ensures Original(s) !in taken ==> UniquePath(taken, s) == Some(Original(s))
    ensures UniquePath(taken, s).None? <==>
      Original(s) in taken && forall i :: 1 <= i <= MaxSuffix ==> Candidate(s, i) in taken
    ensures Original(s) in taken && UniquePath(taken, s).Some? ==>
      exists i :: 1 <= i <= MaxSuffix && UniquePath(taken, s) == Some(Candidate(s, i))
                  && forall j :: 1 <= j < i ==> Candidate(s, j) in taken
  {
  }

  /** `ensureUniqueFilePath` (src/receive/saveMessage.ts:78-95): tries the target, then `stem(1).ext` ... `stem(10000).ext`. */
  method EnsureUniqueFilePath(fs: Fs, target: Path) returns (r: Result<Path, SaveError>)
    ensures r.Ok? <==> UniquePath(fs.Keys, FileSuffix(target)).Some?
    ensures r.Ok? ==> r.value == UniquePath(fs.Keys, FileSuffix(target)).value
    ensures r.Err? ==> r.error == Exhausted
  {
    if target !in fs {
      return Ok(target);
    }
    var index := 1;
    while index <= MaxSuffix
      invariant 1 <= index <= MaxSuffix + 1
      invariant FirstFree(fs.Keys, FileSuffix(target), 1) == FirstFree(fs.Keys, FileSuffix(target), index)
      decreases MaxSuffix + 1 - index
    {
      var candidate := Candidate(FileSuffix(target), index);
      if candidate !in fs {
        return Ok(candidate);
      }
      index := index + 1;
    }
    return Err(Exhausted);
  }

  /**
   * `ensureUniqueMessageDir` (src/receive/saveMessage.ts:97-112): creates the first free
   * one of `base`, `base_1` ... `base_10000` with a non-recursive `mkdir`.
   */
  method EnsureUniqueMessageDir(d: Disk, base: Path) returns (d': Disk, r: Result<Path, SaveError>)
    ensures r.Ok? ==> UniquePath(d.fs.Keys, DirSuffix(base)) == Some(r.value)
    ensures r.Ok? ==> r.value !in d.fs && d' == Disk(d.fs[r.value := Dir], d.log + [MadeDir(r.value)])
    ensures UniquePath(d.fs.Keys, DirSuffix(base)).None? ==> r == Err(Exhausted)
    ensures UniquePath(d.fs.Keys, DirSuffix(base)).Some? ==>
      (r.Ok? <==> Mkdir(d, UniquePath(d.fs.Keys, DirSuffix(base)).value).Ok?)
    ensures r.Err? ==> d' == d
  {
    var chosen: Path;
    if base !in d.fs {
      chosen := base;
    } else {
      var index := 1;
      while true
        invariant 1 <= index <= MaxSuffix + 1
        invariant FirstFree(d.fs.Keys, DirSuffix(base), 1) == FirstFree(d.fs.Keys, DirSuffix(base), index)
        decreases MaxSuffix + 1 - index
      {
        if index > MaxSuffix {
          return d, Err(Exhausted);
        }
        var candidate := Candidate(DirSuffix(base), index);
        if candidate !in d.fs {
          chosen := candidate;
          break;
        }
        index := index + 1;
      }
    }
    match Mkdir(d, chosen)
    case Err(e) =>
      return d, Err(Io(e));
    case Ok(made) =>
      return made, Ok(chosen);
  }

  /** A name `path.join` appends to a directory as one new segment. */
  predicate ProperName(name: string) {
    name != "" && name != "." && name != ".." && '/' !in name
  }

  /** A second `report.pdf` in the same directory is stored as `report(1).pdf`. */
  lemma SecondReportName(dir: Path)
    ensures CandidateName(FileSuffix(dir + ["report.pdf"]), 1) == "report(1).pdf"
  {
    var n := "report.pdf";
    assert Name(dir + [n]) == n;
    assert LastDot(n) == Some(6) by {
      assert n[6] == '.' && n[7] != '.' && n[8] != '.' && n[9] != '.';
    }
    assert Stem(n) == "report";
    assert NatToString(1) == "1";
  }

  /** A second `file.txt` is stored as `file(1).txt`. */
  lemma SecondFileName(dir: Path)
    ensures CandidateName(FileSuffix(dir + ["file.txt"]), 1) == "file(1).txt"
  {
    var n := "file.txt";
    assert Name(dir + [n]) == n;
    assert LastDot(n) == Some(4) by {
      assert n[4] == '.' && n[5] != '.' && n[6] != '.' && n[7] != '.';
    }
    assert Stem(n) == "file";
    assert NatToString(1) == "1";
  }

  /** The numbered alternatives of a proper name are proper names. */
  lemma CandidateNameProper(s: Scheme, i: nat)
    requires ProperName(Name(Original(s)))
    ensures ProperName(CandidateName(s, i))
  {
    var n := Name(Original(s));
    var c := CandidateName(s, i);
    var digits := NatToString(i);
    assert '/' !in digits by {
      forall k | 0 <= k < |digits| ensures digits[k] != '/' {
        assert IsDigit(digits[k]);
      }
    }
    match s
    case FileSuffix(t) =>
      var stem := Stem(n);
      var ext := Extname(n);
      assert stem + ext == n;
      assert '/' !in stem by {
        forall k | 0 <= k < |stem| ensures stem[k] != '/' {
          assert stem[k] == n[k];
        }
      }
      assert '/' !in ext by {
        forall k | 0 <= k < |ext| ensures ext[k] != '/' {
          assert ext[k] == n[|stem| + k];
        }
      }
      assert c == stem + "(" + digits + ")" + ext;
      assert |c| >= 3;
      assert '/' !in c;
    case DirSuffix(b) =>
      assert c == n + "_" + digits;
      assert |c| >= 3;
      assert '/' !in c;
  }

  /** The name found is a sibling of the original and a proper name too. */
  lemma UniquePathShape(taken: set<Path>, s: Scheme)
    requires |Original(s)| > 0 && ProperName(Name(Original(s)))
    ensures UniquePath(taken, s).Some? ==>
      Parent(UniquePath(taken, s).value) == Parent(Original(s)) && ProperName(Name(UniquePath(taken, s).value))
  {
    var o := Original(s);
    if UniquePath(taken, s).Some? && o in taken {
      var i := FirstFree(taken, s, 1).value;
      var c := Candidate(s, i);
      assert c == Parent(o) + [CandidateName(s, i)];
      assert c[..|c| - 1] == Parent(o);
      CandidateNameProper(s, i);
    }
  }

  /** An alternative is never the original: its name is longer. */
  lemma CandidateNotOriginal(s: Scheme, i: nat)
    requires |Original(s)| > 0
    ensures Candidate(s, i) != Original(s)
  {
    var o := Original(s);
    var c := Candidate(s, i);
    assert c[|c| - 1] == CandidateName(s, i);
    assert o[|o| - 1] == Name(o);
    assert |CandidateName(s, i)| > |Name(o)| by {
      match s
      case FileSuffix(t) =>
        assert |Stem(Name(t))| + |Extname(Name(t))| == |Name(t)|;
      case DirSuffix(bs) =>
    }
  }

  /** Alternatives with different numbers differ. */
  lemma CandidatesDistinct(s: Scheme, i: nat, j: nat)
    ensures Candidate(s, i) == Candidate(s, j) ==> i == j
  {
    var a := CandidateName(s, i);
    var b := CandidateName(s, j);
    assert Candidate(s, i)[|Candidate(s, i)| - 1] == a;
    assert Candidate(s, j)[|Candidate(s, j)| - 1] == b;
    if a == b {
      match s
      case FileSuffix(t) => FileCandidateInjective(t, i, j);
      case DirSuffix(bs) => DirCandidateInjective(bs, i, j);
    }
  }

  lemma FileCandidateInjective(t: Path, i: nat, j: nat)
    requires CandidateName(FileSuffix(t), i) == CandidateName(FileSuffix(t), j)
    ensures i == j
  {
    var p := Stem(Name(t)) + "(";
    var ext := Extname(Name(t));
    var ni := NatToString(i);
    var nj := NatToString(j);
    assert CandidateName(FileSuffix(t), i) == p + (ni + ")" + ext);
    assert CandidateName(FileSuffix(t), j) == p + (nj + ")" + ext);
    DropCommonPrefix(p, ni + ")" + ext, nj + ")" + ext);
    SameUpToParen(ni, nj, ext);
    NatToStringInjective(i, j);
  }

  lemma DirCandidateInjective(bs: Path, i: nat, j: nat)
    requires CandidateName(DirSuffix(bs), i) == CandidateName(DirSuffix(bs), j)
    ensures i == j
  {
    DropCommonPrefix(Name(bs) + "_", NatToString(i), NatToString(j));
    NatToStringInjective(i, j);
  }

  lemma DropCommonPrefix(p: string, x: string, y: string)
    requires p + x == p + y
    ensures x == y
  {
    assert x == (p + x)[|p|..];
    assert y == (p + y)[|p|..];
  }

  lemma {:induction false} SameUpToParen(x: string, y: string, ext: string)
    requires x + ")" + ext == y + ")" + ext
    ensures x == y
  {
    var u := x + ")" + ext;
    assert |x| == |y|;
    assert x == u[..|x|] == y;
  }

  lemma {:induction false} NatToStringInjective(i: nat, j: nat)
    requires NatToString(i) == NatToString(j)
    ensures i == j
  {
    NatToStringValue(i);
    NatToStringValue(j);
  }
}
