/**
 * The protein log of src/hooks/useProteinData.js: the effective daily goal,
 * adding, editing and removing entries, and the per-day queries.
 *
 * The Firestore `logs` collection is a sequence of entries owned by a
 * `ProteinLog` object; the entries the hook shows are the signed-in user's.
 * Document ids, the clock and the `yyyy-MM-dd` formatting of a date are
 * inputs or counters rather than calls.
 */
module ProteinData {
  import opened Options
  import opened LogEntries
  import Profiles

  /** The goal used when the profile has none. */
  const DefaultGoal: real := 120.0

  /** The label of an entry added without one. */
  const DefaultLabel: string := "Quick Add"

  /** `profile?.goal || 120`: the stored goal when it is a non-zero number, 120 otherwise. */
  function EffectiveGoal(profile: Option<Profiles.Doc>): (g: real)
    ensures g != 0.0
    ensures profile.Some? && Profiles.Truthy(profile.value, Profiles.Goal) && profile.value[Profiles.Goal].Number?
            ==> g == profile.value[Profiles.Goal].x
    ensures profile.None? || !Profiles.Truthy(profile.value, Profiles.Goal) ==> g == DefaultGoal
  {
    match profile
    case None => DefaultGoal
    case Some(d) =>
      if Profiles.Truthy(d, Profiles.Goal) && d[Profiles.Goal].Number? then d[Profiles.Goal].x else DefaultGoal
  }

  // ----- Day queries ----------------------------------------------------------

  /** `entry.date === dateStr`. */
  function OnDay(day: string): LogEntry -> bool { (e: LogEntry) => e.date == day }

  function HasId(id: nat): LogEntry -> bool { (e: LogEntry) => e.id == id }

  function NotId(id: nat): LogEntry -> bool { (e: LogEntry) => e.id != id }

  function OwnedBy(uid: string): LogEntry -> bool { (e: LogEntry) => e.userId == uid }

  /** `getEntriesForDay`: the day's entries, newest first. */
  function EntriesForDay(entries: seq<LogEntry>, day: string): seq<LogEntry> {
    SortNewestFirst(Filter(entries, OnDay(day)))
  }

  /** `getTotalForDay`: the sum of the day's amounts. */
  function TotalForDay(entries: seq<LogEntry>, day: string): real {
    Sum(EntriesForDay(entries, day))
  }

  /** The day's entries are exactly those dated `day`, none missing, none extra, none duplicated, and newest first. */
  lemma EntriesForDayExact(entries: seq<LogEntry>, day: string)
    ensures NewestFirst(EntriesForDay(entries, day))
    ensures forall e :: multiset(EntriesForDay(entries, day))[e] == if e.date == day then multiset(entries)[e] else 0
  {
    SortedPermutation(Filter(entries, OnDay(day)));
    FilterCounts(entries, OnDay(day));
  }

  /** The day's total is the sum over its entries in any order, and 0 for a day without entries. */
  lemma TotalForDayIsSum(entries: seq<LogEntry>, day: string)
    ensures TotalForDay(entries, day) == Sum(Filter(entries, OnDay(day)))
    ensures (forall e :: e in entries ==> e.date != day) ==> TotalForDay(entries, day) == 0.0
  {
    SumSorted(Filter(entries, OnDay(day)));
    if forall e :: e in entries ==> e.date != day {
      NoneKept(entries, OnDay(day));
    }
  }

  /** A new entry adds its amount to its own day's total and leaves every other day's total alone. */
  lemma AddChangesOnlyItsDay(entries: seq<LogEntry>, e: LogEntry, day: string)
    ensures TotalForDay(entries + [e], day) == TotalForDay(entries, day) + (if e.date == day then e.amount else 0.0)
  {
    TotalForDayIsSum(entries + [e], day);
    TotalForDayIsSum(entries, day);
    FilterAppend(entries, [e], OnDay(day));
    SumAppend(Filter(entries, OnDay(day)), Filter([e], OnDay(day)));
  }

  /** Day totals depend only on which entries there are, not on their order. */
  lemma TotalIgnoresOrder(a: seq<LogEntry>, b: seq<LogEntry>, day: string)
    requires multiset(a) == multiset(b)
    ensures TotalForDay(a, day) == TotalForDay(b, day)
  {
    TotalForDayIsSum(a, day);
    TotalForDayIsSum(b, day);
    FilterPermutation(a, b, OnDay(day));
    SumPermutation(Filter(a, OnDay(day)), Filter(b, OnDay(day)));
  }

  /**
   * Adding an entry to the query's logs and sorting again: the entries grow
   * by the new one, stay newest first, the new one heads the list when it is
   * strictly the newest, and only its own day's total moves, by its amount.
   */
  lemma AddToNewestFirst(before: seq<LogEntry>, e: LogEntry)
    ensures var s, s' := SortNewestFirst(before), SortNewestFirst(before + [e]);
      && multiset(s') == multiset(s) + multiset{e}
      && NewestFirst(s')
      && ((forall x :: x in s ==> x.timestamp < e.timestamp) ==> s'[0] == e)
      && (forall d :: TotalForDay(s', d) == TotalForDay(s, d) + (if d == e.date then e.amount else 0.0))
  {
    var s, s' := SortNewestFirst(before), SortNewestFirst(before + [e]);
    SortedPermutation(before);
    SortedPermutation(before + [e]);
    if forall x :: x in s ==> x.timestamp < e.timestamp {
      assert e in multiset(s');
      forall x | x in s' && x != e ensures x.timestamp < e.timestamp {
        assert multiset(s')[x] > 0;
        assert multiset(s')[x] == multiset(s)[x];
      }
      NewestHeads(s', e);
    }
    forall d ensures TotalForDay(s', d) == TotalForDay(s, d) + (if d == e.date then e.amount else 0.0) {
      TotalIgnoresOrder(s', before + [e], d);
      TotalIgnoresOrder(s, before, d);
      AddChangesOnlyItsDay(before, e, d);
    }
  }

  /** The celebration test of the add handler: the day's total was below the goal and the added amount lifts it to the goal. */
  predicate GoalReached(total: real, goal: real, amount: real) {
    total < goal && total + amount >= goal
  }

  /** The test fires exactly when adding the entry moves its day's total from below the goal to at least the goal. */
  lemma GoalReachedIff(entries: seq<LogEntry>, e: LogEntry, goal: real)
    ensures GoalReached(TotalForDay(entries, e.date), goal, e.amount)
      <==> TotalForDay(entries, e.date) < goal <= TotalForDay(entries + [e], e.date)
  {
    AddChangesOnlyItsDay(entries, e, e.date);
  }

  // ----- Editing and removing -------------------------------------------------

  /** No two entries share an id. */
  predicate UniqueIds(s: seq<LogEntry>) {
    forall i, j :: 0 <= i < j < |s| ==> s[i].id != s[j].id
  }

  /** `updateDoc(logRef, {amount, label})` on the entry with the given id. */
  function EditLogs(s: seq<LogEntry>, id: nat, amount: real, labelText: string): (r: seq<LogEntry>)
    ensures |r| == |s|
  {
    if s == [] then []
    else [if s[0].id == id then s[0].(amount := amount, labelText := labelText) else s[0]]
         + EditLogs(s[1..], id, amount, labelText)
  }

  /** `deleteDoc(logRef)` on the entry with the given id. */
  function RemoveLogs(s: seq<LogEntry>, id: nat): seq<LogEntry> {
    Filter(s, NotId(id))
  }

  /** Editing changes the amount and label of the entry with the id and nothing else: owners, timestamps and days stay. */
  lemma {:induction false} EditChangesOnlyAmountAndLabel(s: seq<LogEntry>, id: nat, amount: real, labelText: string, i: nat)
    requires i < |s|
    ensures var r := EditLogs(s, id, amount, labelText);
      && r[i].id == s[i].id && r[i].userId == s[i].userId
      && r[i].timestamp == s[i].timestamp && r[i].date == s[i].date
      && (s[i].id == id ==> r[i].amount == amount && r[i].labelText == labelText)
      && (s[i].id != id ==> r[i] == s[i])
  {
    if i > 0 {
      EditChangesOnlyAmountAndLabel(s[1..], id, amount, labelText, i - 1);
    }
  }

  /** Removing drops every entry with the id and keeps every other entry as often as it occurred. */
  lemma RemoveDropsOnlyId(s: seq<LogEntry>, id: nat)
    ensures forall e :: multiset(RemoveLogs(s, id))[e] == if e.id == id then 0 else multiset(s)[e]
  {
    FilterCounts(s, NotId(id));
  }

  /** With unique ids, the entry at `k` is the only one with its id. */
  lemma {:induction false} OnlyEntryWithId(s: seq<LogEntry>, k: nat)
    requires UniqueIds(s) && k < |s|
    ensures Filter(s, HasId(s[k].id)) == [s[k]]
  {
    if k == 0 {
      NoEntryWithId(s[1..], s[0].id);
    } else {
      assert UniqueIds(s[1..]) by {
        forall i, j | 0 <= i < j < |s[1..]| ensures s[1..][i].id != s[1..][j].id {
          assert s[1..][i] == s[i + 1] && s[1..][j] == s[j + 1];
        }
      }
      OnlyEntryWithId(s[1..], k - 1);
    }
  }

  lemma {:induction false} NoEntryWithId(s: seq<LogEntry>, id: nat)
    requires forall e :: e in s ==> e.id != id
    ensures Filter(s, HasId(id)) == []
  {
    if s != [] {
      NoEntryWithId(s[1..], id);
    }
  }

  /** A day's sum without the entries carrying `id` is the day's sum less theirs. */
  lemma {:induction false} DaySumWithout(s: seq<LogEntry>, id: nat, day: string)
    ensures Sum(Filter(Filter(s, NotId(id)), OnDay(day)))
         == Sum(Filter(s, OnDay(day))) - Sum(Filter(Filter(s, HasId(id)), OnDay(day)))
  {
    if s != [] {
      DaySumWithout(s[1..], id, day);
    }
  }

  lemma {:induction false} EditAppend(a: seq<LogEntry>, b: seq<LogEntry>, id: nat, amount: real, labelText: string)
    ensures EditLogs(a + b, id, amount, labelText) == EditLogs(a, id, amount, labelText) + EditLogs(b, id, amount, labelText)
  {
    if a == [] {
      assert a + b == b;
    } else {
      assert (a + b)[0] == a[0] && (a + b)[1..] == a[1..] + b;
      EditAppend(a[1..], b, id, amount, labelText);
    }
  }

  lemma {:induction false} EditWithoutId(s: seq<LogEntry>, id: nat, amount: real, labelText: string)
    requires forall e :: e in s ==> e.id != id
    ensures EditLogs(s, id, amount, labelText) == s
  {
    if s != [] {
      EditWithoutId(s[1..], id, amount, labelText);
    }
  }

  /** Splits a sequence with unique ids around position `k`: no other entry has the id of `s[k]`. */
  lemma SplitAtUnique(s: seq<LogEntry>, k: nat)
    requires UniqueIds(s) && k < |s|
    ensures s == s[..k] + [s[k]] + s[k + 1..]
    ensures forall e :: e in s[..k] ==> e.id != s[k].id
    ensures forall e :: e in s[k + 1..] ==> e.id != s[k].id
  {
    assert s == s[..k] + [s[k]] + s[k + 1..];
    forall e | e in s[k + 1..] ensures e.id != s[k].id {
      var m :| 0 <= m < |s[k + 1..]| && s[k + 1..][m] == e;
      assert s[k + 1 + m] == e;
    }
  }

  /** A day's sum splits over the three parts of a sequence. */
  lemma DaySumThree(a: seq<LogEntry>, x: LogEntry, b: seq<LogEntry>, day: string)
    ensures Sum(Filter(a + [x] + b, OnDay(day)))
         == Sum(Filter(a, OnDay(day))) + (if x.date == day then x.amount else 0.0) + Sum(Filter(b, OnDay(day)))
  {
    FilterAppend(a + [x], b, OnDay(day));
    FilterAppend(a, [x], OnDay(day));
    SumAppend(Filter(a, OnDay(day)) + Filter([x], OnDay(day)), Filter(b, OnDay(day)));
    SumAppend(Filter(a, OnDay(day)), Filter([x], OnDay(day)));
  }

  /** Removing an entry lowers its own day's total by its amount and no other day's. */
  lemma RemoveChangesOnlyItsDay(s: seq<LogEntry>, k: nat, day: string)
    requires UniqueIds(s) && k < |s|
    ensures TotalForDay(RemoveLogs(s, s[k].id), day)
         == TotalForDay(s, day) - (if s[k].date == day then s[k].amount else 0.0)
  {
    TotalForDayIsSum(RemoveLogs(s, s[k].id), day);
    TotalForDayIsSum(s, day);
    DaySumWithout(s, s[k].id, day);
    OnlyEntryWithId(s, k);
  }

  /** Editing an entry moves its own day's total by the change in amount and no other day's. */
  lemma EditChangesOnlyItsDay(s: seq<LogEntry>, k: nat, amount: real, labelText: string, day: string)
    requires UniqueIds(s) && k < |s|
    ensures TotalForDay(EditLogs(s, s[k].id, amount, labelText), day)
         == TotalForDay(s, day) + (if s[k].date == day then amount - s[k].amount else 0.0)
  {
    var a, x, b, id := s[..k], s[k], s[k + 1..], s[k].id;
    SplitAtUnique(s, k);
    EditAppend(a + [x], b, id, amount, labelText);
    EditAppend(a, [x], id, amount, labelText);
    EditWithoutId(a, id, amount, labelText);
    EditWithoutId(b, id, amount, labelText);
    var x' := x.(amount := amount, labelText := labelText);
    assert EditLogs([x], id, amount, labelText) == [x'];
    assert EditLogs(s, id, amount, labelText) == a + [x'] + b;
    TotalForDayIsSum(EditLogs(s, id, amount, labelText), day);
    TotalForDayIsSum(s, day);
    DaySumThree(a, x', b, day);
    DaySumThree(a, x, b, day);
  }

  // ----- The hook's state -------------------------------------------------------

  /** The signed-in user, the `logs` collection, and the next document id. */
  class ProteinLog {
    var user: Option<string>
    var logs: seq<LogEntry>
    var nextId: nat

    /** Document ids are unique and below the next one handed out. */
    ghost predicate Valid()
      reads this
    {
      UniqueIds(logs) && forall e :: e in logs ==> e.id < nextId
    }

    constructor(user: Option<string>)
      ensures Valid() && this.user == user && logs == [] && nextId == 0
    {
      this.user := user;
      logs := [];
      nextId := 0;
    }

    /** The logs the query selects: the signed-in user's, in the order they were added. */
    function Owned(): seq<LogEntry>
      reads this
    {
      if user.None? then [] else Filter(logs, OwnedBy(user.value))
    }

    /** `entries`: the query's logs ordered by timestamp, newest first; none without a user. */
    function Entries(): seq<LogEntry>
      reads this
    {
      SortNewestFirst(Owned())
    }

    function GetEntriesForDay(day: string): seq<LogEntry>
      reads this
    {
      EntriesForDay(Entries(), day)
    }

    function GetTotalForDay(day: string): real
      reads this
    {
      TotalForDay(Entries(), day)
    }

    /** `addEntry`: a new document with the user, the amount, the label (default "Quick Add"), the time and the day. */
    method AddEntry(amount: real, labelText: Option<string>, day: string, now: int)
      requires Valid()
      modifies this
      ensures Valid() && user == old(user)
      ensures old(user).None? ==> logs == old(logs) && nextId == old(nextId)
      ensures old(user).Some? ==>
        var e := LogEntry(old(nextId), old(user).value, amount, labelText.GetOr(DefaultLabel), now, day);
        && logs == old(logs) + [e]
        && nextId == old(nextId) + 1
        && Owned() == old(Owned()) + [e]
        && Entries() == SortNewestFirst(old(Owned()) + [e])
        && multiset(Entries()) == multiset(old(Entries())) + multiset{e}
        && NewestFirst(Entries())
    {
      if user.None? {
        return;
      }
      var e := LogEntry(nextId, user.value, amount, labelText.GetOr(DefaultLabel), now, day);
      var before := Owned();
      FilterAppend(logs, [e], OwnedBy(user.value));
      SortedPermutation(before);
      SortedPermutation(before + [e]);
      logs := logs + [e];
      nextId := nextId + 1;
      assert Owned() == before + [e];
    }

    /** `editEntry`: the amount and label of the document with the id. */
    method EditEntry(id: nat, amount: real, labelText: string)
      requires Valid()
      modifies this`logs
      ensures Valid()
      ensures logs == if user.None? then old(logs) else EditLogs(old(logs), id, amount, labelText)
    {
      if user.None? {
        return;
      }
      var r := EditLogs(logs, id, amount, labelText);
      forall i | 0 <= i < |logs| ensures r[i].id == logs[i].id {
        EditChangesOnlyAmountAndLabel(logs, id, amount, labelText, i);
      }
      assert forall e :: e in r ==> e.id < nextId by {
        forall e | e in r ensures e.id < nextId {
          var i :| 0 <= i < |r| && r[i] == e;
          assert logs[i] in logs;
        }
      }
      logs := r;
    }

    /** `removeEntry`: deletes the document with the id. */
    method RemoveEntry(id: nat)
      requires Valid()
      modifies this`logs
      ensures Valid()
      ensures logs == if user.None? then old(logs) else RemoveLogs(old(logs), id)
    {
      if user.None? {
        return;
      }
      var r := RemoveLogs(logs, id);
      FilterIsSubsequence(logs, NotId(id));
      SubsequenceKeepsUnique(r, logs);
      logs := r;
    }
  }

  /** A subsequence of a sequence with unique ids has unique ids. */
  lemma {:induction false} SubsequenceKeepsUnique(a: seq<LogEntry>, b: seq<LogEntry>)
    requires IsSubsequence(a, b) && UniqueIds(b)
    ensures UniqueIds(a)
    ensures forall e :: e in a ==> e in b
    decreases |b|
  {
    if a != [] && b != [] {
      assert UniqueIds(b[1..]) by {
        forall i, j | 0 <= i < j < |b[1..]| ensures b[1..][i].id != b[1..][j].id {
          assert b[1..][i] == b[i + 1] && b[1..][j] == b[j + 1];
        }
      }
      if a[0] == b[0] {
        SubsequenceKeepsUnique(a[1..], b[1..]);
        forall j | 0 < j < |a| ensures a[0].id != a[j].id {
          assert a[j] == a[1..][j - 1];
          assert a[1..][j - 1] in a[1..];
          var m :| 0 <= m < |b[1..]| && b[1..][m] == a[j];
          assert b[m + 1] == a[j];
        }
        assert a == [a[0]] + a[1..];
      } else {
        SubsequenceKeepsUnique(a, b[1..]);
      }
    }
  }
}
