/**
 * Protein log entries as stored in the `logs` collection, and the list
 * operations the hooks and views apply to them: keeping the entries that
 * satisfy a condition (`Array.prototype.filter`), sorting by timestamp with
 * the newest first (`sort((a, b) => b.timestamp - a.timestamp)`, a stable
 * sort), and adding up the amounts (`reduce`).
 */
module LogEntries {

  /** One logged amount of protein; `date` is the day bucket in `yyyy-MM-dd` form. */
  datatype LogEntry = LogEntry(id: nat, userId: string, amount: real, labelText: string, timestamp: int, date: string)

  // ----- Filter -------------------------------------------------------------

  /** The entries satisfying `keep`, in their original order. */
  function Filter(s: seq<LogEntry>, keep: LogEntry -> bool): (r: seq<LogEntry>)
    ensures |r| <= |s|
    ensures forall e :: e in r ==> e in s && keep(e)
  {
    if s == [] then []
    else if keep(s[0]) then [s[0]] + Filter(s[1..], keep)
    else Filter(s[1..], keep)
  }

  /** Every entry satisfying `keep` is kept as often as it occurs, and no other entry is. */
  lemma {:induction false} FilterCounts(s: seq<LogEntry>, keep: LogEntry -> bool)
    ensures forall e :: multiset(Filter(s, keep))[e] == if keep(e) then multiset(s)[e] else 0
  {
    if s != [] {
      FilterCounts(s[1..], keep);
      assert s == [s[0]] + s[1..];
    }
  }

  /** Nothing is kept when no entry satisfies `keep`. */
  lemma {:induction false} NoneKept(s: seq<LogEntry>, keep: LogEntry -> bool)
    requires forall e :: e in s ==> !keep(e)
    ensures Filter(s, keep) == []
  {
    if s != [] {
      NoneKept(s[1..], keep);
    }
  }

  /** `a` is `b` with some elements left out, the rest in the same order. */
  predicate IsSubsequence(a: seq<LogEntry>, b: seq<LogEntry>)
    decreases |b|
  {
    if a == [] then true
    else if b == [] then false
    else if a[0] == b[0] then IsSubsequence(a[1..], b[1..])
    else IsSubsequence(a, b[1..])
  }

  /** Filtering only removes entries and keeps the relative order of the rest. */
  lemma {:induction false} FilterIsSubsequence(s: seq<LogEntry>, keep: LogEntry -> bool)
    ensures IsSubsequence(Filter(s, keep), s)
  {
    if s != [] {
      FilterIsSubsequence(s[1..], keep);
      if keep(s[0]) {
        assert Filter(s, keep)[1..] == Filter(s[1..], keep);
      }
    }
  }

  lemma {:induction false} FilterAppend(a: seq<LogEntry>, b: seq<LogEntry>, keep: LogEntry -> bool)
    ensures Filter(a + b, keep) == Filter(a, keep) + Filter(b, keep)
  {
    if a == [] {
      assert a + b == b;
    } else {
      assert (a + b)[1..] == a[1..] + b;
      FilterAppend(a[1..], b, keep);
    }
  }

  /** Filtering by `keep` after filtering by `first` keeps what satisfies both. */
  lemma {:induction false} FilterFilter(s: seq<LogEntry>, first: LogEntry -> bool, keep: LogEntry -> bool)
    ensures Filter(Filter(s, first), keep) == Filter(s, e => first(e) && keep(e))
  {
    if s != [] {
      FilterFilter(s[1..], first, keep);
    }
  }

  // ----- Sorting by timestamp, newest first -------------------------------

  /** Timestamps never increase along `s`. */
  predicate NewestFirst(s: seq<LogEntry>) {
    forall i, j :: 0 <= i < j < |s| ==> s[i].timestamp >= s[j].timestamp
  }

  /** `e` goes before the first entry that is not newer; equal timestamps keep `e` first. */
  function Insert(e: LogEntry, s: seq<LogEntry>): seq<LogEntry> {
    if s == [] || s[0].timestamp <= e.timestamp then [e] + s
    else [s[0]] + Insert(e, s[1..])
  }

  /** The entries of `s`, newest first; among equal timestamps the original order is kept. */
  function SortNewestFirst(s: seq<LogEntry>): seq<LogEntry> {
    if s == [] then [] else Insert(s[0], SortNewestFirst(s[1..]))
  }

  lemma {:induction false} InsertCounts(e: LogEntry, s: seq<LogEntry>)
    ensures multiset(Insert(e, s)) == multiset(s) + multiset{e}
  {
    if s != [] && s[0].timestamp > e.timestamp {
      InsertCounts(e, s[1..]);
      assert s == [s[0]] + s[1..];
    }
  }

  /** An entry no older than any entry of a sorted list can go in front of it. */
  lemma ConsNewestFirst(x: LogEntry, t: seq<LogEntry>)
    requires NewestFirst(t)
    requires forall j :: 0 <= j < |t| ==> x.timestamp >= t[j].timestamp
    ensures NewestFirst([x] + t)
  {
    var r := [x] + t;
    forall i, j | 0 <= i < j < |r| ensures r[i].timestamp >= r[j].timestamp {
      assert r[j] == t[j - 1];
      if i > 0 {
        assert r[i] == t[i - 1];
      }
    }
  }

  lemma {:induction false} InsertNewestFirst(e: LogEntry, s: seq<LogEntry>)
    requires NewestFirst(s)
    ensures NewestFirst(Insert(e, s))
  {
    if s != [] && s[0].timestamp > e.timestamp {
      var t := Insert(e, s[1..]);
      assert NewestFirst(s[1..]) by {
        forall i, j | 0 <= i < j < |s[1..]| ensures s[1..][i].timestamp >= s[1..][j].timestamp {
          assert s[1..][i] == s[i + 1] && s[1..][j] == s[j + 1];
        }
      }
      InsertNewestFirst(e, s[1..]);
      InsertCounts(e, s[1..]);
      forall j | 0 <= j < |t| ensures s[0].timestamp >= t[j].timestamp {
        assert t[j] in multiset(s[1..]) + multiset{e};
        if t[j] != e {
          assert t[j] in s[1..];
          var m :| 0 <= m < |s[1..]| && s[1..][m] == t[j];
          assert s[m + 1] == t[j];
        }
      }
      ConsNewestFirst(s[0], t);
    } else {
      ConsNewestFirst(e, s);
    }
  }

  /** Sorting yields the same entries, as often as before, newest first. */
  lemma {:induction false} SortedPermutation(s: seq<LogEntry>)
    ensures NewestFirst(SortNewestFirst(s))
    ensures multiset(SortNewestFirst(s)) == multiset(s)
  {
    if s != [] {
      SortedPermutation(s[1..]);
      InsertNewestFirst(s[0], SortNewestFirst(s[1..]));
      InsertCounts(s[0], SortNewestFirst(s[1..]));
      assert s == [s[0]] + s[1..];
    }
  }

  /** The test that keeps the entries logged at timestamp `t`. */
  function AtTime(t: int): LogEntry -> bool {
    (x: LogEntry) => x.timestamp == t
  }

  /** Inserting an entry keeps the entries of any one timestamp in order, the inserted one first among its peers. */
  lemma {:induction false} InsertKeepsPeers(e: LogEntry, s: seq<LogEntry>, t: int)
    ensures Filter(Insert(e, s), AtTime(t))
         == (if e.timestamp == t then [e] else []) + Filter(s, AtTime(t))
  {
    if s != [] && s[0].timestamp > e.timestamp {
      InsertKeepsPeers(e, s[1..], t);
      assert Insert(e, s)[1..] == Insert(e, s[1..]);
    }
  }

  /** The sort is stable: the entries sharing a timestamp come out in the order they went in. */
  lemma {:induction false} SortIsStable(s: seq<LogEntry>, t: int)
    ensures Filter(SortNewestFirst(s), AtTime(t)) == Filter(s, AtTime(t))
  {
    if s != [] {
      SortIsStable(s[1..], t);
      InsertKeepsPeers(s[0], SortNewestFirst(s[1..]), t);
    }
  }

  // ----- Sum of amounts -----------------------------------------------------

  /** `reduce((sum, e) => sum + e.amount, 0)`. */
  function Sum(s: seq<LogEntry>): real {
    if s == [] then 0.0 else s[0].amount + Sum(s[1..])
  }

  lemma {:induction false} SumAppend(a: seq<LogEntry>, b: seq<LogEntry>)
    ensures Sum(a + b) == Sum(a) + Sum(b)
  {
    if a == [] {
      assert a + b == b;
    } else {
      assert (a + b)[1..] == a[1..] + b;
      SumAppend(a[1..], b);
    }
  }

  lemma {:induction false} SumInsert(e: LogEntry, s: seq<LogEntry>)
    ensures Sum(Insert(e, s)) == e.amount + Sum(s)
  {
    if s != [] && s[0].timestamp > e.timestamp {
      SumInsert(e, s[1..]);
    }
  }

  /** One occurrence of the same entry can be taken off both sides. */
  lemma CancelOne(x: multiset<LogEntry>, y: multiset<LogEntry>, e: LogEntry)
    requires x + multiset{e} == y + multiset{e}
    ensures x == y
  {
    forall z ensures x[z] == y[z] {
      assert (x + multiset{e})[z] == (y + multiset{e})[z];
    }
  }

  /** Taking the entry at `i` out of a list takes one occurrence of it out of its entries. */
  lemma RemoveAtCounts(b: seq<LogEntry>, i: nat)
    requires i < |b|
    ensures multiset(b) == multiset(b[..i] + b[i + 1..]) + multiset{b[i]}
  {
    assert b == b[..i] + [b[i]] + b[i + 1..];
  }

  /** Taking the entry at `i` out of a list takes its amount out of the sum. */
  lemma SumRemoveAt(b: seq<LogEntry>, i: nat)
    requires i < |b|
    ensures Sum(b) == b[i].amount + Sum(b[..i] + b[i + 1..])
  {
    assert b == b[..i] + ([b[i]] + b[i + 1..]);
    SumAppend(b[..i], [b[i]] + b[i + 1..]);
    assert ([b[i]] + b[i + 1..])[1..] == b[i + 1..];
    SumAppend(b[..i], b[i + 1..]);
  }

  /** The total does not depend on the order of the entries, only on which entries there are and how often. */
  lemma {:induction false} SumPermutation(a: seq<LogEntry>, b: seq<LogEntry>)
    requires multiset(a) == multiset(b)
    ensures Sum(a) == Sum(b)
    decreases |a|
  {
    if a == [] {
      assert |b| == |multiset(b)| == 0;
    } else {
      assert a[0] in multiset(b);
      var i :| 0 <= i < |b| && b[i] == a[0];
      var rest := b[..i] + b[i + 1..];
      RemoveAtCounts(b, i);
      assert a == [a[0]] + a[1..];
      assert multiset(a) == multiset(a[1..]) + multiset{a[0]};
      CancelOne(multiset(a[1..]), multiset(rest), a[0]);
      SumPermutation(a[1..], rest);
      SumRemoveAt(b, i);
    }
  }

  /** Filtering two lists with the same entries keeps the same entries. */
  lemma FilterPermutation(a: seq<LogEntry>, b: seq<LogEntry>, keep: LogEntry -> bool)
    requires multiset(a) == multiset(b)
    ensures multiset(Filter(a, keep)) == multiset(Filter(b, keep))
  {
    FilterCounts(a, keep);
    FilterCounts(b, keep);
  }

  /** In a newest-first list, an entry strictly newer than every other one comes first. */
  lemma NewestHeads(s: seq<LogEntry>, e: LogEntry)
    requires NewestFirst(s) && e in s
    requires forall x :: x in s && x != e ==> x.timestamp < e.timestamp
    ensures s[0] == e
  {
    var i :| 0 <= i < |s| && s[i] == e;
    assert s[0].timestamp >= e.timestamp by {
      if i > 0 {
        assert s[0].timestamp >= s[i].timestamp;
      }
    }
  }

  /** Sorting does not change the total. */
  lemma {:induction false} SumSorted(s: seq<LogEntry>)
    ensures Sum(SortNewestFirst(s)) == Sum(s)
  {
    if s != [] {
      SumSorted(s[1..]);
      SumInsert(s[0], SortNewestFirst(s[1..]));
    }
  }
}
