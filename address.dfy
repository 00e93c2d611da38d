/**
 * Address normaliser: finds email-like tokens in header text, normalises them (trim and
 * lower-case), removes duplicates keeping the first occurrence, and answers whether a list
 * of header values mentions a given address.
 *
 * The token grammar is the one of `EMAIL_REGEX` (src/mail/address.ts:1): a run of local-part
 * characters, `@`, a run of domain characters, `.`, and two or more ASCII letters. `Matches`
 * scans the text the way a global `String.prototype.match` does: at each position it tries
 * the greedy pattern with backtracking, takes the match and resumes after it, otherwise it
 * moves one character on.
 */
module Address {
  import opened Wrappers
  import opened Text

  datatype CharClass = LocalPart | DomainPart | Letter

  predicate InClass(c: char, k: CharClass) {
    match k
    case LocalPart => IsAsciiLetter(c) || IsDigit(c) || c in {'.', '!', '#', '$', '%', '&', '\'', '*', '+', '/', '=', '?', '^', '_', '`', '{', '|', '}', '~', '-'}
    case DomainPart => IsAsciiLetter(c) || IsDigit(c) || c == '.' || c == '-'
    case Letter => IsAsciiLetter(c)
  }

  /** End of the longest run of `k` characters starting at `i`. */
  function RunEnd(s: string, i: nat, k: CharClass): (r: nat)
    requires i <= |s|
    ensures i <= r <= |s|
    ensures forall j :: i <= j < r ==> InClass(s[j], k)
    ensures r == |s| || !InClass(s[r], k)
    decreases |s| - i
  {
    if i < |s| && InClass(s[i], k) then RunEnd(s, i + 1, k) else i
  }

  /** A `.` followed by two letters: where `\.[a-zA-Z]{2,}` can start. */
  predicate IsTldDot(s: string, j: nat) {
    j + 2 < |s| && s[j] == '.' && IsAsciiLetter(s[j + 1]) && IsAsciiLetter(s[j + 2])
  }

  /** The last top-level-domain dot in `[lo, hi)`: the greedy domain run backtracks to it. */
  function LastTldDot(s: string, lo: nat, hi: nat): (r: Option<nat>)
    requires hi <= |s|
    ensures r.Some? ==> lo <= r.value < hi && IsTldDot(s, r.value)
    ensures r.Some? ==> forall j :: r.value < j < hi ==> !IsTldDot(s, j)
    ensures r.None? ==> forall j :: lo <= j < hi ==> !IsTldDot(s, j)
    decreases hi
  {
    if hi <= lo then None
    else if IsTldDot(s, hi - 1) then Some(hi - 1)
    else LastTldDot(s, lo, hi - 1)
  }

  /** `m` splits as local part, `@`, domain, `.`, and a top-level domain of 2+ letters. */
  predicate EmailShape(m: string, at: nat, dot: nat)
    requires at < dot < |m|
  {
    && m[at] == '@' && m[dot] == '.'
    && (forall j :: 0 <= j < at ==> InClass(m[j], LocalPart))
    && (forall j :: at < j < dot ==> InClass(m[j], DomainPart))
    && (forall j :: dot < j < |m| ==> InClass(m[j], Letter))
  }

  predicate IsEmailToken(m: string) {
    exists at: nat, dot: nat | 0 < at && at + 1 < dot && dot + 2 < |m| :: EmailShape(m, at, dot)
  }

  /** Where a match starting exactly at `i` ends, if the pattern matches there. */
  function MatchAt(s: string, i: nat): (r: Option<nat>)
    requires i <= |s|
    ensures r.Some? ==> i < r.value <= |s| && IsEmailToken(s[i..r.value])
  {
    var k := RunEnd(s, i, LocalPart);
    if k == i || k == |s| || s[k] != '@' then None
    else
      var d := RunEnd(s, k + 1, DomainPart);
      match LastTldDot(s, k + 2, d)
      case None => None
      case Some(j) =>
        var e := RunEnd(s, j + 1, Letter);
        var m := s[i..e];
        assert EmailShape(m, k - i, j - i);
        Some(e)
  }

  /** All matches from position `pos` on, left to right, without overlap. */
  function Matches(s: string, pos: nat): (r: seq<string>)
    requires pos <= |s|
    decreases |s| - pos
  {
    if pos == |s| then []
    else
      match MatchAt(s, pos)
      case Some(e) => [s[pos..e]] + Matches(s, e)
      case None => Matches(s, pos + 1)
  }

  /** Every match is an email token. */
  lemma {:induction false} MatchesAreTokens(s: string, pos: nat)
    requires pos <= |s|
    ensures forall n :: 0 <= n < |Matches(s, pos)| ==> IsEmailToken(Matches(s, pos)[n])
    decreases |s| - pos
  {
    if pos < |s| {
      match MatchAt(s, pos)
      case Some(e) => MatchesAreTokens(s, e);
      case None => MatchesAreTokens(s, pos + 1);
    }
  }

  /** `normalizeEmail`: trim, then lower-case. */
  function NormalizeEmail(value: string): string {
    ToLower(Trim(value))
  }

  /** Normalising twice is normalising once; the result has no edge whitespace and no ASCII capital. */
  lemma {:induction false} NormalizeEmailIdempotent(value: string)
    ensures NormalizeEmail(NormalizeEmail(value)) == NormalizeEmail(value)
    ensures NoEdgeWhitespace(NormalizeEmail(value))
    ensures forall i :: 0 <= i < |NormalizeEmail(value)| ==> !('A' <= NormalizeEmail(value)[i] <= 'Z')
  {
    var t := Trim(value);
    TrimToLowerCommute(t);
    TrimIdempotent(value);
    ToLowerIdempotent(t);
    if t != [] {
      LowerCharWhitespace(t[0]);
      LowerCharWhitespace(t[|t| - 1]);
    }
  }

  /** Normalisation of every element. */
  function NormalizeAll(ms: seq<string>): (r: seq<string>)
    ensures |r| == |ms| && forall n :: 0 <= n < |ms| ==> r[n] == NormalizeEmail(ms[n])
  {
    seq(|ms|, n requires 0 <= n < |ms| => NormalizeEmail(ms[n]))
  }

  lemma NormalizeAllSnoc(ms: seq<string>, i: nat)
    requires i < |ms|
    ensures NormalizeAll(ms[..i + 1]) == NormalizeAll(ms[..i]) + [NormalizeEmail(ms[i])]
  {
    assert ms[..i + 1] == ms[..i] + [ms[i]];
  }

  predicate NoDuplicates<T(==)>(s: seq<T>) {
    forall i, j :: 0 <= i < j < |s| ==> s[i] != s[j]
  }

  /** Keeps the first occurrence of every element: what adding to a JavaScript `Set` and spreading it gives. */
  function Dedup<T(==,!new)>(s: seq<T>): (r: seq<T>)
    ensures NoDuplicates(r)
    ensures forall x :: x in r <==> x in s
    ensures |r| <= |s|
    decreases |s|
  {
    if s == [] then []
    else
      var d := Dedup(s[..|s| - 1]);
      if s[|s| - 1] in d then d else d + [s[|s| - 1]]
  }

  /** Position of the first occurrence of `x` in `s`. */
  function FirstIndex<T(==)>(s: seq<T>, x: T): (k: nat)
    requires x in s
    ensures k < |s| && s[k] == x && x !in s[..k]
  {
    if s[0] == x then 0 else 1 + FirstIndex(s[1..], x)
  }

  lemma {:induction false} FirstIndexOfPrefix<T(!new)>(s: seq<T>, t: seq<T>, x: T)
    requires x in s
    ensures x in s + t && FirstIndex(s + t, x) == FirstIndex(s, x)
  {
    assert (s + t)[0] == s[0];
    if s[0] != x {
      assert (s + t)[1..] == s[1..] + t;
      FirstIndexOfPrefix(s[1..], t, x);
    }
  }

  lemma {:induction false} FirstIndexOfLast<T(!new)>(p: seq<T>, x: T)
    requires x !in p
    ensures FirstIndex(p + [x], x) == |p|
  {
    if p != [] {
      assert (p + [x])[1..] == p[1..] + [x];
      FirstIndexOfLast(p[1..], x);
    }
  }

  /** Dedup lists the distinct elements in the order of their first occurrence. */
  lemma {:induction false} DedupFirstOccurrenceOrder<T(!new)>(s: seq<T>)
    ensures forall i, j :: 0 <= i < j < |Dedup(s)| ==> FirstIndex(s, Dedup(s)[i]) < FirstIndex(s, Dedup(s)[j])
    decreases |s|
  {
    if s != [] {
      var p := s[..|s| - 1];
      var x := s[|s| - 1];
      assert s == p + [x];
      DedupFirstOccurrenceOrder(p);
      var d := Dedup(p);
      forall y | y in p ensures FirstIndex(s, y) == FirstIndex(p, y) {
        FirstIndexOfPrefix(p, [x], y);
      }
      if x !in d {
        FirstIndexOfLast(p, x);
      }
    }
  }

  lemma DedupSingleton<T(!new)>(x: T)
    ensures Dedup([x]) == [x]
  {
    assert [x][..0] == [];
  }

  /** Adding one element to a deduplicated prefix: the step of the `Set` loop. */
  lemma DedupSnoc<T(!new)>(s: seq<T>, x: T)
    ensures Dedup(s + [x]) == if x in Dedup(s) then Dedup(s) else Dedup(s) + [x]
  {
    assert (s + [x])[..|s|] == s;
  }

  /** The normalised addresses of one header value, as `extractEmailsFromAddress` returns them. */
  function EmailsIn(value: string): seq<string> {
    Dedup(NormalizeAll(Matches(value, 0)))
  }

  /** `extractEmailsFromAddress` (src/mail/address.ts:7-16): one pass adding into an insertion-ordered set. */
  method ExtractEmailsFromAddress(value: string) returns (r: seq<string>)
    ensures r == EmailsIn(value)
  {
    var matches := Matches(value, 0);
    r := [];
    for idx := 0 to |matches|
      invariant r == Dedup(NormalizeAll(matches[..idx]))
    {
      var n := NormalizeEmail(matches[idx]);
      NormalizeAllSnoc(matches, idx);
      DedupSnoc(NormalizeAll(matches[..idx]), n);
      if n !in r {
        r := r + [n];
      }
    }
    assert matches[..|matches|] == matches;
  }

  /** Concatenation of a sequence of sequences, in order. */
  function Flatten<T>(xss: seq<seq<T>>): seq<T>
    decreases |xss|
  {
    if xss == [] then [] else Flatten(xss[..|xss| - 1]) + xss[|xss| - 1]
  }

  lemma {:induction false} FlattenMembers<T>(xss: seq<seq<T>>, x: T)
    ensures x in Flatten(xss) <==> exists i :: 0 <= i < |xss| && x in xss[i]
    decreases |xss|
  {
    if xss != [] {
      var p := xss[..|xss| - 1];
      FlattenMembers(p, x);
      assert forall i :: 0 <= i < |p| ==> xss[i] == p[i];
      if x in xss[|p|] {
        assert x in Flatten(xss);
      }
    }
  }

  /** The per-value results of `values`. */
  function PerValueEmails(values: seq<string>): (r: seq<seq<string>>)
    ensures |r| == |values| && forall i :: 0 <= i < |values| ==> r[i] == EmailsIn(values[i])
  {
    seq(|values|, i requires 0 <= i < |values| => EmailsIn(values[i]))
  }

  /** The per-value results of `values`, concatenated in order. */
  function ConcatEmails(values: seq<string>): seq<string> {
    Flatten(PerValueEmails(values))
  }

  lemma ConcatEmailsMembers(values: seq<string>, x: string)
    ensures x in ConcatEmails(values) <==> exists i :: 0 <= i < |values| && x in EmailsIn(values[i])
  {
    FlattenMembers(PerValueEmails(values), x);
  }

  lemma ConcatEmailsSnoc(values: seq<string>, vi: nat)
    requires vi < |values|
    ensures ConcatEmails(values[..vi + 1]) == ConcatEmails(values[..vi]) + EmailsIn(values[vi])
  {
    var pv := PerValueEmails(values[..vi + 1]);
    assert pv[..vi] == PerValueEmails(values[..vi]);
  }

  lemma DedupAppendStep<T(!new)>(before: seq<T>, ext: seq<T>, ei: nat)
    requires ei < |ext|
    ensures Dedup(before + ext[..ei + 1]) ==
      if ext[ei] in Dedup(before + ext[..ei]) then Dedup(before + ext[..ei]) else Dedup(before + ext[..ei]) + [ext[ei]]
  {
    assert before + ext[..ei + 1] == (before + ext[..ei]) + [ext[ei]];
    DedupSnoc(before + ext[..ei], ext[ei]);
  }

  /** The addresses of a whole list, as `extractEmailsFromAddressList` returns them. */
  function EmailsInList(values: seq<string>): seq<string> {
    Dedup(ConcatEmails(values))
  }

  /** `extractEmailsFromAddressList` (src/mail/address.ts:18-28): nested loops into one insertion-ordered set. */
  method ExtractEmailsFromAddressList(values: seq<string>) returns (r: seq<string>)
    ensures r == EmailsInList(values)
  {
    r := [];
    for vi := 0 to |values|
      invariant r == Dedup(ConcatEmails(values[..vi]))
    {
      var extracted := ExtractEmailsFromAddress(values[vi]);
      ConcatEmailsSnoc(values, vi);
      r := AddEach(r, extracted, ConcatEmails(values[..vi]));
    }
    assert values[..|values|] == values;
  }

  /** The inner loop of `extractEmailsFromAddressList`: `set.add` for each item in turn. */
  method AddEach<T(==,!new)>(acc: seq<T>, items: seq<T>, ghost before: seq<T>) returns (r: seq<T>)
    requires acc == Dedup(before)
    ensures r == Dedup(before + items)
  {
    r := acc;
    assert before + items[..0] == before;
    for i := 0 to |items|
      invariant r == Dedup(before + items[..i])
    {
      DedupAppendStep(before, items, i);
      if items[i] !in r {
        r := r + [items[i]];
      }
    }
    assert items[..|items|] == items;
  }

  /**
   * What `extractEmailsFromAddress` promises: no duplicates, exactly the normalised matches,
   * each of them a normalised email token, in first-occurrence order.
   */
  lemma EmailsInSpec(value: string)
    ensures NoDuplicates(EmailsIn(value))
    ensures forall x :: x in EmailsIn(value) <==> exists m :: m in Matches(value, 0) && NormalizeEmail(m) == x
    ensures forall x :: x in EmailsIn(value) ==> NormalizeEmail(x) == x
    ensures var ns := NormalizeAll(Matches(value, 0));
            forall i, j :: 0 <= i < j < |EmailsIn(value)| ==> FirstIndex(ns, EmailsIn(value)[i]) < FirstIndex(ns, EmailsIn(value)[j])
  {
    DedupFirstOccurrenceOrder(NormalizeAll(Matches(value, 0)));
    EmailsInAreMatches(value);
    EmailsInNormalized(value);
  }

  lemma EmailsInAreMatches(value: string)
    ensures forall x :: x in EmailsIn(value) <==> exists m :: m in Matches(value, 0) && NormalizeEmail(m) == x
  {
    var ms := Matches(value, 0);
    var ns := NormalizeAll(ms);
    DedupFirstOccurrenceOrder(ns);
    forall x ensures x in EmailsIn(value) <==> exists m :: m in ms && NormalizeEmail(m) == x {
      if x in ns {
        var n :| 0 <= n < |ns| && ns[n] == x;
        assert ms[n] in ms;
      }
      if exists m :: m in ms && NormalizeEmail(m) == x {
        var m :| m in ms && NormalizeEmail(m) == x;
        var n :| 0 <= n < |ms| && ms[n] == m;
        assert ns[n] == x;
      }
    }
  }

  lemma EmailsInNormalized(value: string)
    ensures forall x :: x in EmailsIn(value) ==> NormalizeEmail(x) == x
  {
    var ms := Matches(value, 0);
    var ns := NormalizeAll(ms);
    DedupFirstOccurrenceOrder(ns);
    forall x | x in EmailsIn(value) ensures NormalizeEmail(x) == x {
      var n :| 0 <= n < |ns| && ns[n] == x;
      NormalizeEmailIdempotent(ms[n]);
    }
  }

  /** Text without any match yields no address. */
  lemma NoMatchNoEmails(value: string)
    requires Matches(value, 0) == []
    ensures EmailsIn(value) == []
  {
  }

  /** The list result has no duplicates and, as a set, is the union of the per-value results. */
  lemma {:induction false} EmailsInListSpec(values: seq<string>)
    ensures NoDuplicates(EmailsInList(values))
    ensures forall x :: x in EmailsInList(values) <==> exists i :: 0 <= i < |values| && x in EmailsIn(values[i])
  {
    forall x ensures x in EmailsInList(values) <==> exists i :: 0 <= i < |values| && x in EmailsIn(values[i]) {
      ConcatEmailsMembers(values, x);
    }
  }

  /** `addressListContainsEmail` (src/mail/address.ts:30-33). */
  function AddressListContainsEmail(values: seq<string>, targetEmail: string): bool {
    NormalizeEmail(targetEmail) in EmailsInList(values)
  }

  lemma {:induction false} InListHasMatch(values: seq<string>, x: string) returns (i: nat, m: string)
    requires x in EmailsInList(values)
    ensures i < |values| && m in Matches(values[i], 0) && NormalizeEmail(m) == x
  {
    EmailsInListSpec(values);
    i :| 0 <= i < |values| && x in EmailsIn(values[i]);
    EmailsInSpec(values[i]);
    m :| m in Matches(values[i], 0) && NormalizeEmail(m) == x;
  }

  lemma {:induction false} MatchIsInList(values: seq<string>, i: nat, m: string)
    requires i < |values| && m in Matches(values[i], 0)
    ensures NormalizeEmail(m) in EmailsInList(values)
  {
    EmailsInSpec(values[i]);
    EmailsInListSpec(values);
  }

  /** An address is in the list result iff some value holds a match that normalises to it. */
  lemma {:induction false} EmailsInListIffMatch(values: seq<string>, x: string)
    ensures x in EmailsInList(values) <==>
      exists i, m :: 0 <= i < |values| && m in Matches(values[i], 0) && NormalizeEmail(m) == x
  {
    if x in EmailsInList(values) {
      var i, m := InListHasMatch(values, x);
    }
    if exists i, m :: 0 <= i < |values| && m in Matches(values[i], 0) && NormalizeEmail(m) == x {
      var i, m :| 0 <= i < |values| && m in Matches(values[i], 0) && NormalizeEmail(m) == x;
      MatchIsInList(values, i, m);
    }
  }

  /**
   * The list contains the target iff some value holds a match that normalises to the
   * normalised target; so case and surrounding whitespace of the target do not matter,
   * and an empty list contains nothing.
   */
  lemma {:induction false} AddressListContainsEmailSpec(values: seq<string>, targetEmail: string)
    ensures AddressListContainsEmail(values, targetEmail) <==>
      exists i, m :: 0 <= i < |values| && m in Matches(values[i], 0) && NormalizeEmail(m) == NormalizeEmail(targetEmail)
    ensures AddressListContainsEmail(values, targetEmail) == AddressListContainsEmail(values, NormalizeEmail(targetEmail))
    ensures values == [] ==> !AddressListContainsEmail(values, targetEmail)
  {
    NormalizeEmailIdempotent(targetEmail);
    EmailsInListIffMatch(values, NormalizeEmail(targetEmail));
  }

  const DisplayNameHeader: string := "Alice <Alice@Example.com>"

  lemma DisplayNameLocalRuns()
    ensures RunEnd(DisplayNameHeader, 0, LocalPart) == 5
    ensures RunEnd(DisplayNameHeader, 7, LocalPart) == 12
  {
    DisplayNameFirstRun();
    DisplayNameSecondRun();
  }

  lemma DisplayNameFirstRun()
    ensures RunEnd(DisplayNameHeader, 0, LocalPart) == 5
  {
    RunEndAt(DisplayNameHeader, 0, 5, LocalPart);
  }

  lemma DisplayNameSecondRun()
    ensures RunEnd(DisplayNameHeader, 7, LocalPart) == 12
  {
    RunEndAt(DisplayNameHeader, 7, 12, LocalPart);
  }

  /** A run ends at the first character outside the class. */
  lemma RunEndAt(s: string, i: nat, e: nat, k: CharClass)
    requires i <= e <= |s|
    requires forall j :: i <= j < e ==> InClass(s[j], k)
    requires e == |s| || !InClass(s[e], k)
    ensures RunEnd(s, i, k) == e
  {
  }

  lemma DisplayNameDomainRun()
    ensures RunEnd(DisplayNameHeader, 13, DomainPart) == 24
    ensures LastTldDot(DisplayNameHeader, 14, 24) == Some(20)
    ensures RunEnd(DisplayNameHeader, 21, Letter) == 24
  {
    var v := DisplayNameHeader;
    assert RunEnd(v, 24, DomainPart) == 24;
    assert IsTldDot(v, 20);
  }

  lemma DisplayNameNoMatchBefore(i: nat)
    requires i < 7
    ensures MatchAt(DisplayNameHeader, i) == None
  {
    var v := DisplayNameHeader;
    DisplayNameLocalRuns();
    if i < 5 {
      assert RunEnd(v, 4, LocalPart) == 5;
      assert RunEnd(v, 2, LocalPart) == 5;
      assert RunEnd(v, 1, LocalPart) == 5;
      assert RunEnd(v, i, LocalPart) == 5;
    } else {
      assert RunEnd(v, i, LocalPart) == i;
    }
  }

  lemma {:induction false} DisplayNameSkipsName(i: nat)
    requires i <= 7
    ensures Matches(DisplayNameHeader, i) == Matches(DisplayNameHeader, 7)
    decreases 7 - i
  {
    if i < 7 {
      DisplayNameNoMatchBefore(i);
      DisplayNameSkipsName(i + 1);
    }
  }

  lemma DisplayNameMatch()
    ensures Matches(DisplayNameHeader, 7) == ["Alice@Example.com"]
  {
    var v := DisplayNameHeader;
    DisplayNameMatchAt();
    DisplayNameSlice();
    DisplayNameTail();
  }

  lemma DisplayNameMatchAt()
    ensures MatchAt(DisplayNameHeader, 7) == Some(24)
  {
    DisplayNameLocalRuns();
    DisplayNameDomainRun();
  }

  lemma DisplayNameSlice()
    ensures DisplayNameHeader[7..24] == "Alice@Example.com"
  {
  }

  lemma DisplayNameTail()
    ensures Matches(DisplayNameHeader, 24) == []
  {
    assert |DisplayNameHeader| == 25;
    assert RunEnd(DisplayNameHeader, 24, LocalPart) == 24;
  }

  lemma DisplayNameNormalized()
    ensures NormalizeEmail("Alice@Example.com") == "alice@example.com"
  {
    var t := "Alice@Example.com";
    TrimNoop(t);
    assert ToLower(t) == "alice@example.com";
  }

  /** A display-name header yields its one address, lower-cased. */
  lemma DisplayNameExample(header: string)
    requires header == DisplayNameHeader
    ensures EmailsIn(header) == ["alice@example.com"]
  {
    DisplayNameSkipsName(0);
    DisplayNameMatch();
    var ms := Matches(header, 0);
    assert ms == ["Alice@Example.com"];
    DisplayNameNormalized();
    assert NormalizeAll(ms) == [NormalizeEmail(ms[0])];
    DedupSingleton("alice@example.com");
  }
}
