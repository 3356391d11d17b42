/**
 * The full history of src/components/FullHistoryView.jsx: the entries
 * sorted newest first, narrowed to an inclusive date range by comparing
 * `yyyy-MM-dd` strings, shown fifteen at a time, and grouped by day for
 * display.
 *
 * The fuzzy search (Fuse.js) and the formatting of a group's heading are
 * functions given as parameters.
 */
module History {
  import opened Text
  import opened LogEntries

  /** How many entries the view shows at first and adds per "See More". */
  const PageSize: nat := 15

  // ----- Comparing strings ------------------------------------------------

  /** JavaScript's comparison of strings: character by character (by code point, which is UTF-16 order for the ASCII dates compared here), a proper prefix first. */
  function Compare(a: string, b: string): (c: int)
    ensures -1 <= c <= 1
  {
    if a == [] && b == [] then 0
    else if a == [] then -1
    else if b == [] then 1
    else if a[0] < b[0] then -1
    else if a[0] > b[0] then 1
    else Compare(a[1..], b[1..])
  }

  /** `a <= b` on strings. */
  predicate TextLe(a: string, b: string) { Compare(a, b) <= 0 }

  lemma {:induction false} CompareZero(a: string, b: string)
    ensures Compare(a, b) == 0 <==> a == b
  {
    if a != [] && b != [] {
      CompareZero(a[1..], b[1..]);
      if a[0] == b[0] {
        assert a == [a[0]] + a[1..] && b == [b[0]] + b[1..];
      }
    }
  }

  /** Behind prefixes of equal length, the prefixes decide unless they are equal. */
  lemma {:induction false} CompareAppend(p: string, s: string, q: string, t: string)
    requires |p| == |q|
    ensures Compare(p + s, q + t) == if p == q then Compare(s, t) else Compare(p, q)
  {
    if p == [] {
      assert p + s == s && q + t == t;
    } else {
      assert (p + s)[0] == p[0] && (p + s)[1..] == p[1..] + s;
      assert (q + t)[0] == q[0] && (q + t)[1..] == q[1..] + t;
      CompareAppend(p[1..], s, q[1..], t);
      if p[0] == q[0] && p[1..] == q[1..] {
        assert p == [p[0]] + p[1..] && q == [q[0]] + q[1..];
      }
    }
  }

  // ----- Full dates of RFC 3339 -----------------------------------------

  /** `n` written with exactly `width` decimal digits, zero-padded on the left. */
  function Padded(n: nat, width: nat): (s: string)
    ensures |s| == width
  {
    if width == 0 then [] else Padded(n / 10, width - 1) + [DigitChar(n % 10)]
  }

  function Sign(x: int): int { if x < 0 then -1 else if x > 0 then 1 else 0 }

  /** Fixed-width numerals compare as strings exactly as their numbers compare. */
  lemma {:induction false} PaddedCompare(n: nat, m: nat, width: nat)
    requires n < Pow10(width) && m < Pow10(width)
    ensures Compare(Padded(n, width), Padded(m, width)) == Sign(n - m)
  {
    if width == 0 {
    } else {
      PaddedCompare(n / 10, m / 10, width - 1);
      CompareZero(Padded(n / 10, width - 1), Padded(m / 10, width - 1));
      CompareAppend(Padded(n / 10, width - 1), [DigitChar(n % 10)], Padded(m / 10, width - 1), [DigitChar(m % 10)]);
    }
  }

  /** A calendar date. */
  datatype CalendarDate = CalendarDate(year: nat, month: nat, day: nat)

  /** `date-fullyear "-" date-month "-" date-mday`, the `yyyy-MM-dd` form of section 5.6 of RFC 3339. */
  function FullDate(d: CalendarDate): (s: string)
    ensures |s| == 10
  {
    Padded(d.year, 4) + "-" + Padded(d.month, 2) + "-" + Padded(d.day, 2)
  }

  /** Chronological order of dates. */
  predicate NotLater(a: CalendarDate, b: CalendarDate) {
    a.year < b.year || (a.year == b.year && (a.month < b.month || (a.month == b.month && a.day <= b.day)))
  }

  /** Two full dates compare by year, then by month, then by day. */
  lemma FullDateCompare(a: CalendarDate, b: CalendarDate)
    ensures var ya, yb := Padded(a.year, 4), Padded(b.year, 4);
      var ma, mb := Padded(a.month, 2), Padded(b.month, 2);
      Compare(FullDate(a), FullDate(b))
        == if ya != yb then Compare(ya, yb)
           else if ma != mb then Compare(ma, mb)
           else Compare(Padded(a.day, 2), Padded(b.day, 2))
  {
    var ya, yb := Padded(a.year, 4), Padded(b.year, 4);
    var ma, mb := Padded(a.month, 2), Padded(b.month, 2);
    var da, db := Padded(a.day, 2), Padded(b.day, 2);
    var ta, tb := "-" + ma + ("-" + da), "-" + mb + ("-" + db);
    assert FullDate(a) == ya + ta;
    assert FullDate(b) == yb + tb;
    CompareAppend(ya, ta, yb, tb);
    SeparatedCompare(ma, "-" + da, mb, "-" + db);
    CompareAppend("-", da, "-", db);
  }

  /** Behind a leading `-`, strings compare as what follows it. */
  lemma SeparatedCompare(p: string, s: string, q: string, t: string)
    requires |p| == |q|
    ensures Compare("-" + p + s, "-" + q + t) == if p == q then Compare(s, t) else Compare(p, q)
  {
    assert "-" + p + s == "-" + (p + s);
    assert "-" + q + t == "-" + (q + t);
    CompareAppend("-", p + s, "-", q + t);
    CompareAppend(p, s, q, t);
  }

  /** Fixed-width numerals are equal exactly when their numbers are, and compare as they do. */
  lemma PaddedOrder(n: nat, m: nat, width: nat)
    requires n < Pow10(width) && m < Pow10(width)
    ensures Padded(n, width) == Padded(m, width) <==> n == m
    ensures Compare(Padded(n, width), Padded(m, width)) <= 0 <==> n <= m
  {
    PaddedCompare(n, m, width);
    CompareZero(Padded(n, width), Padded(m, width));
  }

  /** Section 5.1 of RFC 3339: full dates sort as strings in chronological order. */
  lemma FullDateOrder(a: CalendarDate, b: CalendarDate)
    requires a.year < 10000 && a.month < 100 && a.day < 100
    requires b.year < 10000 && b.month < 100 && b.day < 100
    ensures TextLe(FullDate(a), FullDate(b)) <==> NotLater(a, b)
  {
    assert Pow10(2) == 100 && Pow10(4) == 10000;
    PaddedOrder(a.year, b.year, 4);
    PaddedOrder(a.month, b.month, 2);
    PaddedOrder(a.day, b.day, 2);
    FullDateCompare(a, b);
  }

  // ----- The processed list -------------------------------------------------

  /** `e.date >= startDate`. */
  function NotBefore(startDate: string): LogEntry -> bool { (e: LogEntry) => TextLe(startDate, e.date) }

  /** `e.date <= endDate`. */
  function NotAfter(endDate: string): LogEntry -> bool { (e: LogEntry) => TextLe(e.date, endDate) }

  /** The entries a date range admits: an empty bound admits everything. */
  predicate InRange(e: LogEntry, startDate: string, endDate: string) {
    (startDate == "" || TextLe(startDate, e.date)) && (endDate == "" || TextLe(e.date, endDate))
  }

  /** `processedEntries`: a sorted copy, the lower bound, the upper bound, then the search. */
  function Processed(entries: seq<LogEntry>, searchQuery: string, startDate: string, endDate: string,
                     search: (string, seq<LogEntry>) -> seq<LogEntry>): seq<LogEntry>
  {
    var sorted := SortNewestFirst(entries);
    var fromStart := if startDate != "" then Filter(sorted, NotBefore(startDate)) else sorted;
    var inRange := if endDate != "" then Filter(fromStart, NotAfter(endDate)) else fromStart;
    if Trim(searchQuery) != "" then search(searchQuery, inRange) else inRange
  }

  /** The date filters keep an entry of the sorted list exactly when its date is in range. */
  lemma {:induction false} RangeFilter(s: seq<LogEntry>, startDate: string, endDate: string)
    ensures var fromStart := if startDate != "" then Filter(s, NotBefore(startDate)) else s;
      var inRange := if endDate != "" then Filter(fromStart, NotAfter(endDate)) else fromStart;
      inRange == Filter(s, (e: LogEntry) => InRange(e, startDate, endDate))
  {
    if s != [] {
      RangeFilter(s[1..], startDate, endDate);
    }
  }

  /** Without a search, the result is exactly the entries in range, each as often as it occurs, newest first, in the sorted order. */
  lemma ProcessedInRange(entries: seq<LogEntry>, searchQuery: string, startDate: string, endDate: string,
                         search: (string, seq<LogEntry>) -> seq<LogEntry>)
    requires Trim(searchQuery) == ""
    ensures var r := Processed(entries, searchQuery, startDate, endDate, search);
      && (forall e :: e in r ==> InRange(e, startDate, endDate))
      && (forall e :: multiset(r)[e] == if InRange(e, startDate, endDate) then multiset(entries)[e] else 0)
      && NewestFirst(r)
      && IsSubsequence(r, SortNewestFirst(entries))
  {
    var sorted := SortNewestFirst(entries);
    var keep := (e: LogEntry) => InRange(e, startDate, endDate);
    RangeFilter(sorted, startDate, endDate);
    SortedPermutation(entries);
    FilterCounts(sorted, keep);
    FilterIsSubsequence(sorted, keep);
    SubsequenceNewestFirst(Filter(sorted, keep), sorted);
  }

  /** With no search and no bounds the result is the whole list, newest first. */
  lemma ProcessedUnfiltered(entries: seq<LogEntry>, search: (string, seq<LogEntry>) -> seq<LogEntry>)
    ensures Processed(entries, "", "", "", search) == SortNewestFirst(entries)
  {
    assert Trim("") == "";
  }

  /** Leaving entries out of a list sorted newest first keeps it sorted. */
  lemma {:induction false} SubsequenceNewestFirst(a: seq<LogEntry>, b: seq<LogEntry>)
    requires IsSubsequence(a, b) && NewestFirst(b)
    ensures NewestFirst(a)
    ensures forall e :: e in a ==> e in b
    decreases |b|
  {
    if a != [] && b != [] {
      if a[0] == b[0] {
        SubsequenceNewestFirst(a[1..], b[1..]);
        forall j | 0 < j < |a| ensures a[0].timestamp >= a[j].timestamp {
          assert a[1..][j - 1] in a[1..];
          var m :| 0 <= m < |b[1..]| && b[1..][m] == a[j];
          assert b[m + 1] == a[j];
        }
        assert a == [a[0]] + a[1..];
      } else {
        SubsequenceNewestFirst(a, b[1..]);
      }
    }
  }

  // ----- Pagination ---------------------------------------------------------

  /** `processedEntries.slice(0, visibleCount)`. */
  function Visible(processed: seq<LogEntry>, visibleCount: nat): (r: seq<LogEntry>)
    ensures |r| == if visibleCount < |processed| then visibleCount else |processed|
    ensures r <= processed
  {
    if visibleCount < |processed| then processed[..visibleCount] else processed
  }

  /** The "See More" button, shown while `visibleCount < processedEntries.length`, with the number remaining; the empty state, shown when nothing is visible. */
  lemma SeeMoreIff(processed: seq<LogEntry>, visibleCount: nat)
    ensures visibleCount < |processed| <==> |Visible(processed, visibleCount)| < |processed|
    ensures visibleCount < |processed| ==>
      |processed| - visibleCount > 0 && |processed| - visibleCount == |processed| - |Visible(processed, visibleCount)|
    ensures visibleCount > 0 ==> (Visible(processed, visibleCount) == [] <==> processed == [])
  {
  }

  /** Showing more never hides what was shown: the shorter page is a prefix of the longer. */
  lemma VisibleGrows(processed: seq<LogEntry>, c1: nat, c2: nat)
    requires c1 <= c2
    ensures Visible(processed, c1) <= Visible(processed, c2)
  {
  }

  // ----- The view's state ---------------------------------------------------

  /** The search text, the two date bounds and the number of entries shown. */
  class HistoryView {
    var searchQuery: string
    var startDate: string
    var endDate: string
    var visibleCount: nat

    /** The count is a positive multiple of the page size. */
    ghost predicate Valid()
      reads this
    {
      visibleCount >= PageSize && visibleCount % PageSize == 0
    }

    constructor()
      ensures Valid()
      ensures searchQuery == "" && startDate == "" && endDate == "" && visibleCount == PageSize
    {
      searchQuery := "";
      startDate := "";
      endDate := "";
      visibleCount := PageSize;
    }

    /** `handleSearchChange`: a new search starts again from the first page. */
    method SetSearchQuery(q: string)
      modifies this
      ensures Valid()
      ensures searchQuery == q && visibleCount == PageSize
      ensures startDate == old(startDate) && endDate == old(endDate)
    {
      searchQuery := q;
      visibleCount := PageSize;
    }

    /** `handleDateChange(setStartDate)`. */
    method SetStartDate(d: string)
      modifies this
      ensures Valid()
      ensures startDate == d && visibleCount == PageSize
      ensures searchQuery == old(searchQuery) && endDate == old(endDate)
    {
      startDate := d;
      visibleCount := PageSize;
    }

    /** `handleDateChange(setEndDate)`. */
    method SetEndDate(d: string)
      modifies this
      ensures Valid()
      ensures endDate == d && visibleCount == PageSize
      ensures searchQuery == old(searchQuery) && startDate == old(startDate)
    {
      endDate := d;
      visibleCount := PageSize;
    }

    /** The "See More" button: one more page. */
    method SeeMore()
      requires Valid()
      modifies this`visibleCount
      ensures Valid()
      ensures visibleCount == old(visibleCount) + PageSize
    {
      visibleCount := visibleCount + PageSize;
    }

    /** The entries on screen: the first `visibleCount` of the processed list. */
    function Shown(processed: seq<LogEntry>): seq<LogEntry>
      reads this
    {
      Visible(processed, visibleCount)
    }

    /** A valid view shows the empty state exactly when nothing survives the search and the date range. */
    lemma ShownEmptyIff(processed: seq<LogEntry>)
      requires Valid()
      ensures Shown(processed) == [] <==> processed == []
    {
      SeeMoreIff(processed, visibleCount);
    }

    function ProcessedEntries(entries: seq<LogEntry>, search: (string, seq<LogEntry>) -> seq<LogEntry>): seq<LogEntry>
      reads this
    {
      Processed(entries, searchQuery, startDate, endDate, search)
    }

    function VisibleEntries(entries: seq<LogEntry>, search: (string, seq<LogEntry>) -> seq<LogEntry>): seq<LogEntry>
      reads this
    {
      Visible(ProcessedEntries(entries, search), visibleCount)
    }
  }

  // ----- Grouping by day ------------------------------------------------------

  /** Entries whose heading is `k`. */
  function WithKey(keyOf: LogEntry -> string, k: string): LogEntry -> bool { (e: LogEntry) => keyOf(e) == k }

  /** The headings of `s` in order of first appearance. */
  function Headings(s: seq<LogEntry>, keyOf: LogEntry -> string): seq<string> {
    if s == [] then []
    else
      var d := Headings(s[..|s| - 1], keyOf);
      if keyOf(s[|s| - 1]) in d then d else d + [keyOf(s[|s| - 1])]
  }

  /** Every heading of an entry appears, no other, and none twice. */
  lemma {:induction false} HeadingsExact(s: seq<LogEntry>, keyOf: LogEntry -> string)
    ensures forall e :: e in s ==> keyOf(e) in Headings(s, keyOf)
    ensures forall k :: k in Headings(s, keyOf) ==> exists e :: e in s && keyOf(e) == k
    ensures forall i, j :: 0 <= i < j < |Headings(s, keyOf)| ==> Headings(s, keyOf)[i] != Headings(s, keyOf)[j]
  {
    if s != [] {
      var p := s[..|s| - 1];
      HeadingsExact(p, keyOf);
      assert s == p + [s[|s| - 1]];
      forall k | k in Headings(s, keyOf) ensures exists e :: e in s && keyOf(e) == k {
        if k in Headings(p, keyOf) {
          var e :| e in p && keyOf(e) == k;
          assert e in s;
        } else {
          assert s[|s| - 1] in s;
        }
      }
    }
  }

  lemma HeadingsStep(s: seq<LogEntry>, e: LogEntry, keyOf: LogEntry -> string)
    ensures Headings(s + [e], keyOf)
         == if keyOf(e) in Headings(s, keyOf) then Headings(s, keyOf) else Headings(s, keyOf) + [keyOf(e)]
  {
    assert (s + [e])[..|s + [e]| - 1] == s;
  }

  /** Every group holds exactly the entries of `prefix` with its heading, and every entry of `prefix` has a group. */
  predicate GroupsOf(groups: map<string, seq<LogEntry>>, prefix: seq<LogEntry>, keyOf: LogEntry -> string) {
    && (forall h :: h in groups ==> groups[h] == Filter(prefix, WithKey(keyOf, h)))
    && (forall x :: x in prefix ==> keyOf(x) in groups)
  }

  /** One step of the `reduce`: pushing `e` onto its heading's group, or onto a new group. */
  function Push(groups: map<string, seq<LogEntry>>, e: LogEntry, keyOf: LogEntry -> string): map<string, seq<LogEntry>> {
    var k := keyOf(e);
    if k in groups then groups[k := groups[k] + [e]] else groups[k := [e]]
  }

  lemma FilterSingle(e: LogEntry, keep: LogEntry -> bool)
    ensures Filter([e], keep) == if keep(e) then [e] else []
  {
    assert [e][1..] == [];
  }

  /** After the push, the group of heading `h` is the filter of the longer prefix. */
  lemma GroupStepAt(prefix: seq<LogEntry>, e: LogEntry, keyOf: LogEntry -> string,
                    groups: map<string, seq<LogEntry>>, h: string)
    requires GroupsOf(groups, prefix, keyOf)
    requires h in Push(groups, e, keyOf)
    ensures Push(groups, e, keyOf)[h] == Filter(prefix + [e], WithKey(keyOf, h))
  {
    FilterAppend(prefix, [e], WithKey(keyOf, h));
    FilterSingle(e, WithKey(keyOf, h));
    if h !in groups {
      NoneKept(prefix, WithKey(keyOf, h));
    }
  }

  lemma GroupStep(prefix: seq<LogEntry>, e: LogEntry, keyOf: LogEntry -> string, groups: map<string, seq<LogEntry>>)
    requires GroupsOf(groups, prefix, keyOf)
    ensures GroupsOf(Push(groups, e, keyOf), prefix + [e], keyOf)
  {
    var next := Push(groups, e, keyOf);
    forall h | h in next ensures next[h] == Filter(prefix + [e], WithKey(keyOf, h)) {
      GroupStepAt(prefix, e, keyOf, groups, h);
    }
    forall x | x in prefix + [e] ensures keyOf(x) in next {
      if x != e {
        assert x in prefix;
      }
    }
  }

  /** The state of the `reduce` after `prefix`: the headings met so far, one group per heading. */
  ghost predicate Grouped(headings: seq<string>, groups: map<string, seq<LogEntry>>, prefix: seq<LogEntry>, keyOf: LogEntry -> string) {
    && headings == Headings(prefix, keyOf)
    && (forall k :: k in groups <==> k in headings)
    && GroupsOf(groups, prefix, keyOf)
  }

  lemma GroupedStep(headings: seq<string>, groups: map<string, seq<LogEntry>>, prefix: seq<LogEntry>,
                    e: LogEntry, keyOf: LogEntry -> string)
    requires Grouped(headings, groups, prefix, keyOf)
    ensures Grouped(if keyOf(e) in groups then headings else headings + [keyOf(e)],
                    Push(groups, e, keyOf), prefix + [e], keyOf)
  {
    HeadingsStep(prefix, e, keyOf);
    GroupStep(prefix, e, keyOf, groups);
  }

  /**
   * `grouped`: the `reduce` that pushes each visible entry onto the array of
   * its heading, creating the array the first time the heading is met. The
   * headings come back in the order the object's keys are listed.
   */
  method GroupByHeading(visible: seq<LogEntry>, keyOf: LogEntry -> string)
    returns (headings: seq<string>, groups: map<string, seq<LogEntry>>)
    ensures headings == Headings(visible, keyOf)
    ensures forall k :: k in groups <==> k in headings
    ensures forall k :: k in groups ==> groups[k] == Filter(visible, WithKey(keyOf, k))
    ensures headings == [] <==> visible == []
  {
    headings, groups := [], map[];
    var i := 0;
    while i < |visible|
      invariant 0 <= i <= |visible|
      invariant Grouped(headings, groups, visible[..i], keyOf)
    {
      var e := visible[i];
      assert visible[..i + 1] == visible[..i] + [e];
      GroupedStep(headings, groups, visible[..i], e, keyOf);
      if keyOf(e) !in groups {
        headings := headings + [keyOf(e)];
      }
      groups := Push(groups, e, keyOf);
      i := i + 1;
    }
    assert visible[..i] == visible;
    if visible != [] {
      assert visible[0] in visible;
    }
  }

  /** Each visible entry lands in exactly one group, the one of its heading, as often as it is visible. */
  lemma GroupsPartition(visible: seq<LogEntry>, keyOf: LogEntry -> string, k: string, e: LogEntry)
    ensures multiset(Filter(visible, WithKey(keyOf, k)))[e] == if keyOf(e) == k then multiset(visible)[e] else 0
  {
    FilterCounts(visible, WithKey(keyOf, k));
  }
}
