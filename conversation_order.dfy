/**
 * The order of a conversation (src/conversation/queryConversation.ts:38-61): entries are
 * sorted in place by the timestamp `Date.parse(date ?? savedAt)`, entries whose timestamp
 * does not parse go last, and ties are broken by comparing the message directories with
 * `localeCompare`.
 *
 * `Date.parse` is a partial function from strings to milliseconds (`None` is `NaN`), and
 * `localeCompare` is a collation given from outside: any function whose sign is a total
 * preorder on strings.
 */
module ConversationOrder {
  import opened Wrappers
  import opened Records
  import opened ArraySort

  /** `Date.parse`; `None` stands for `NaN`. */
  type DateParser = string -> Option<int>

  /** `a.localeCompare(b)`: negative, zero or positive. */
  type Collator = (string, string) -> int

  /** The sign of the collation is antisymmetric and its `<= 0` is transitive, as for any locale. */
  ghost predicate IsCollation(lc: Collator) {
    && (forall a, b :: lc(a, b) < 0 <==> lc(b, a) > 0)
    && (forall a, b, c :: lc(a, b) <= 0 && lc(b, c) <= 0 ==> lc(a, c) <= 0)
  }

  /** The timestamp an entry is ordered by: its `date`, or `savedAt` only when there is no date. */
  function Timestamp(parse: DateParser, e: ConversationEntry): Option<int> {
    parse(e.date.GetOr(e.savedAt))
  }

  /** The comparator passed to `entries.sort`. */
  function Compare(parse: DateParser, lc: Collator, left: ConversationEntry, right: ConversationEntry): int {
    var lt := Timestamp(parse, left);
    var rt := Timestamp(parse, right);
    if lt.None? && rt.None? then lc(left.messageDir, right.messageDir)
    else if lt.None? then 1
    else if rt.None? then -1
    else if lt.value == rt.value then lc(left.messageDir, right.messageDir)
    else lt.value - rt.value
  }

  /** The comparator as a function value, as it is handed to `sort`. */
  function ByDate(parse: DateParser, lc: Collator): Comparator<ConversationEntry> {
    (left, right) => Compare(parse, lc, left, right)
  }

  /**
   * Under any collation the comparator is consistent: swapping its arguments flips its
   * sign, and "not after" is transitive, so the entries are totally preordered.
   */
  lemma CompareConsistent(parse: DateParser, lc: Collator)
    requires IsCollation(lc)
    ensures Consistent(ByDate(parse, lc))
  {
    var cmp := ByDate(parse, lc);
    forall x, y ensures cmp(x, y) < 0 <==> cmp(y, x) > 0 {
      assert lc(x.messageDir, y.messageDir) < 0 <==> lc(y.messageDir, x.messageDir) > 0;
    }
    forall x, y, z | cmp(x, y) <= 0 && cmp(y, z) <= 0 ensures cmp(x, z) <= 0 {
      assert lc(x.messageDir, y.messageDir) <= 0 && lc(y.messageDir, z.messageDir) <= 0 ==>
        lc(x.messageDir, z.messageDir) <= 0;
    }
  }

  /** The merged entries in conversation order. */
  function SortEntries(parse: DateParser, lc: Collator, s: seq<ConversationEntry>): seq<ConversationEntry> {
    InsertionSort(ByDate(parse, lc), s)
  }

  /** The sort returns the same entries, each as often as before, in conversation order. */
  lemma SortEntriesSpec(parse: DateParser, lc: Collator, s: seq<ConversationEntry>)
    requires IsCollation(lc)
    ensures Sorted(ByDate(parse, lc), SortEntries(parse, lc, s))
    ensures multiset(SortEntries(parse, lc, s)) == multiset(s)
    ensures |SortEntries(parse, lc, s)| == |s|
  {
    CompareConsistent(parse, lc);
    InsertionSortSpec(ByDate(parse, lc), s);
  }

  /**
   * In a sorted sequence, entries whose timestamp parses come first, in ascending order of
   * timestamp, and equal timestamps are in collation order of their directories.
   */
  lemma SortedMeaning(parse: DateParser, lc: Collator, s: seq<ConversationEntry>, i: nat, j: nat)
    requires Sorted(ByDate(parse, lc), s) && i < j < |s|
    ensures Timestamp(parse, s[i]).None? ==> Timestamp(parse, s[j]).None?
    ensures Timestamp(parse, s[i]).Some? && Timestamp(parse, s[j]).Some? ==>
      Timestamp(parse, s[i]).value <= Timestamp(parse, s[j]).value
    ensures Timestamp(parse, s[i]) == Timestamp(parse, s[j]) ==> lc(s[i].messageDir, s[j].messageDir) <= 0
  {
    assert ByDate(parse, lc)(s[i], s[j]) <= 0;
  }

  /** `sortByConversationDate` (src/conversation/queryConversation.ts:38-61): sorts in place. */
  method SortByConversationDate(a: array<ConversationEntry>, parse: DateParser, lc: Collator)
    modifies a
    ensures a[..] == SortEntries(parse, lc, old(a[..]))
  {
    Sort(a, ByDate(parse, lc));
  }
}
