/**
 * Challenge-day and task materialisation: `ensureChallengeDays`,
 * `ensureTasks` and the task loop of `seedUserData`
 * (src/lib/database.ts).
 *
 * The record store of one user is a `Store`: its challenge days keyed by
 * day number (unique per user) and its task rows in insertion order. A
 * failing store call is a boolean parameter; a failed batch insert leaves
 * the store as it was.
 */
module Materializer {
  import opened Types
  import opened PmsWindow

  /** The number of days of the challenge. */
  const ChallengeLength: int := 75

  /** The integers lo to hi. */
  function Range(lo: int, hi: int): (r: set<int>)
    ensures forall n :: n in r <==> lo <= n <= hi
    ensures lo <= hi + 1 ==> |r| == hi - lo + 1
    decreases hi - lo
  {
    if lo > hi then {} else {lo} + Range(lo + 1, hi)
  }

  /** Whether n is a day number of the challenge, 1 to 75. */
  predicate InChallenge(n: int)
  {
    1 <= n <= ChallengeLength
  }

  /** Every stored day number lies in 1..75. */
  ghost predicate WithinChallenge(days: map<int, ChallengeDay>)
  {
    forall n :: n in days ==> InChallenge(n)
  }

  lemma {:induction false} SameSizeSubset(a: set<int>, b: set<int>)
    requires a <= b && |a| == |b|
    ensures a == b
  {
    var extra := b - a;
    assert b == a + extra;
    assert |b| == |a| + |extra|;
    assert extra == {};
  }

  /** A set holding exactly the integers 1..hi has hi elements. */
  lemma RangeCard(s: set<int>, hi: nat)
    requires forall n :: n in s <==> 1 <= n <= hi
    ensures |s| == hi
  {
    assert s == Range(1, hi);
  }

  /** hi integers drawn from 1..hi are all of them. */
  lemma FullRange(s: set<int>, hi: nat)
    requires forall n :: n in s ==> 1 <= n <= hi
    requires |s| == hi
    ensures forall n :: 1 <= n <= hi ==> n in s
  {
    SameSizeSubset(s, Range(1, hi));
  }

  // ----- Challenge days -----

  /** A challenge day as seeding inserts it: empty notes, no symptoms, not completed. */
  function FreshDay(n: int, date: Date): ChallengeDay
  {
    ChallengeDay(n, date, "", None, [], false)
  }

  /**
   * The date seeding counts from: day 1's stored date when day 1 exists,
   * and today otherwise, also when other days exist without day 1.
   */
  function Anchor(days: map<int, ChallengeDay>, today: Date): Date
  {
    if |days| > 0 && 1 in days then days[1].date else today
  }

  /** Challenge days keyed by their own day numbers. */
  ghost predicate KeyedByNumber(days: map<int, ChallengeDay>)
  {
    forall n :: n in days ==> days[n].dayNumber == n
  }

  /** The days seeding adds: every missing day number of 1..75, dated `anchor + (n - 1)`. */
  function AddedDays(days: map<int, ChallengeDay>, anchor: Date): (m: map<int, ChallengeDay>)
    ensures forall n :: n in m <==> InChallenge(n) && n !in days
    ensures forall n :: n in m ==> m[n] == FreshDay(n, anchor + n - 1)
  {
    map n | 1 <= n <= ChallengeLength && n !in days :: FreshDay(n, anchor + n - 1)
  }

  /** Inserted day rows, keyed by their day numbers; a later row wins a shared number. */
  function ByNumber(rows: seq<ChallengeDay>): (m: map<int, ChallengeDay>)
    ensures forall n :: n in m ==> m[n].dayNumber == n
  {
    if rows == [] then map[]
    else
      var last := rows[|rows| - 1];
      ByNumber(rows[..|rows| - 1])[last.dayNumber := last]
  }

  lemma ByNumberSnoc(rows: seq<ChallengeDay>, d: ChallengeDay)
    ensures ByNumber(rows + [d]) == ByNumber(rows)[d.dayNumber := d]
  {
    assert (rows + [d])[..|rows|] == rows;
  }

  /** Day rows listed in strictly ascending day-number order, so no number twice. */
  predicate Ascending(rows: seq<ChallengeDay>)
  {
    forall i, j :: 0 <= i < j < |rows| ==> rows[i].dayNumber < rows[j].dayNumber
  }

  /** Ascending rows whose day numbers all lie below i. */
  predicate AscendingBelow(rows: seq<ChallengeDay>, i: int)
  {
    Ascending(rows) && forall j :: 0 <= j < |rows| ==> rows[j].dayNumber < i
  }

  /** Appending a day numbered i to ascending rows below i keeps them ascending, below i + 1. */
  lemma AscendingStep(rows: seq<ChallengeDay>, d: ChallengeDay, i: int)
    requires AscendingBelow(rows, i) && d.dayNumber == i
    ensures AscendingBelow(rows, i + 1)
    ensures AscendingBelow(rows + [d], i + 1)
  {
  }

  /** Rows built for exactly the missing day numbers, dated from `anchor`, are `AddedDays`. */
  lemma MissingAreAdded(days: map<int, ChallengeDay>, m: map<int, ChallengeDay>, anchor: Date)
    requires forall n :: n in m <==> 1 <= n < ChallengeLength + 1 && n !in days.Keys
    requires forall n :: n in m ==> m[n] == FreshDay(n, anchor + n - 1)
    ensures m == AddedDays(days, anchor)
  {
    assert m.Keys == AddedDays(days, anchor).Keys;
  }

  /**
   * The challenge days after a successful `ensureChallengeDays`. With 75
   * day numbers present nothing is added; otherwise every day number of
   * 1..75 that is missing is added, dated `Anchor + (n - 1)`, and no
   * existing day changes.
   */
  function EnsuredDays(days: map<int, ChallengeDay>, today: Date): map<int, ChallengeDay>
  {
    if |days| == ChallengeLength then days
    else days + AddedDays(days, Anchor(days, today))
  }

  /**
   * No stored day changes, and every added day is a fresh day of 1..75
   * dated `Anchor + (n - 1)`.
   */
  lemma EnsuredDaysPreserves(days: map<int, ChallengeDay>, today: Date)
    ensures var r := EnsuredDays(days, today);
      (forall n :: n in days ==> n in r && r[n] == days[n]) &&
      (forall n :: n in r && n !in days ==>
        InChallenge(n) && r[n] == FreshDay(n, Anchor(days, today) + n - 1))
  {
  }

  /**
   * When seeding adds days, day n is dated from day 1's stored date when
   * day 1 exists, and from today otherwise, even when other days exist.
   */
  lemma EnsuredDaysAnchor(days: map<int, ChallengeDay>, today: Date)
    requires |days| != ChallengeLength
    ensures 1 in days ==> forall n :: n in EnsuredDays(days, today) && n !in days ==>
      EnsuredDays(days, today)[n].date == days[1].date + n - 1
    ensures 1 !in days ==> forall n :: n in EnsuredDays(days, today) && n !in days ==>
      EnsuredDays(days, today)[n].date == today + n - 1
  {
    EnsuredDaysPreserves(days, today);
  }

  lemma EnsuredDaysUnfold(days: map<int, ChallengeDay>, today: Date)
    requires |days.Keys| != ChallengeLength
    ensures EnsuredDays(days, today) == days + AddedDays(days, Anchor(days, today))
  {
  }

  /**
   * Fewer than or more than 75 stored day numbers: the days become the
   * union of the stored ones and 1..75. Day numbers stay their days' keys.
   */
  lemma EnsuredDaysKeys(days: map<int, ChallengeDay>, today: Date)
    ensures |days| == ChallengeLength ==> EnsuredDays(days, today) == days
    ensures |days| != ChallengeLength ==>
      forall n :: n in EnsuredDays(days, today) <==> n in days || InChallenge(n)
    ensures KeyedByNumber(days) ==> KeyedByNumber(EnsuredDays(days, today))
    ensures WithinChallenge(days) ==> WithinChallenge(EnsuredDays(days, today))
  {
  }

  /**
   * When the stored day numbers lie in 1..75, a successful call leaves
   * exactly the 75 days 1..75; the early return on 75 day numbers skips
   * nothing then.
   */
  lemma EnsuredDaysComplete(days: map<int, ChallengeDay>, today: Date)
    requires WithinChallenge(days)
    ensures forall n :: n in EnsuredDays(days, today) <==> InChallenge(n)
    ensures |EnsuredDays(days, today)| == ChallengeLength
  {
    EnsuredDaysKeys(days, today);
    var r := EnsuredDays(days, today);
    if |days| == ChallengeLength {
      FullRange(days.Keys, ChallengeLength);
    }
    assert forall n :: n in r.Keys <==> 1 <= n <= ChallengeLength;
    RangeCard(r.Keys, ChallengeLength);
  }

  /** A second successful call, on any later date, changes nothing. */
  lemma EnsuredDaysIdempotent(days: map<int, ChallengeDay>, today: Date, later: Date)
    ensures EnsuredDays(EnsuredDays(days, today), later) == EnsuredDays(days, today)
  {
    var r := EnsuredDays(days, today);
    if |r| != ChallengeLength {
      assert r == days + AddedDays(days, Anchor(days, today));
      assert forall n :: InChallenge(n) ==> n in r;
      var added := AddedDays(r, Anchor(r, later));
      assert added.Keys == {};
      assert EnsuredDays(r, later) == r + added;
      assert r + added == r;
    }
  }

  /** Every stored day is dated `anchor + (n - 1)`. */
  ghost predicate Consecutive(days: map<int, ChallengeDay>, anchor: Date)
  {
    forall n :: n in days ==> days[n].date == anchor + n - 1
  }

  /**
   * Seeding an empty store dates the 75 days consecutively from today; and
   * a store already dated consecutively from its day 1 keeps that anchor,
   * so re-running never shifts a date.
   */
  lemma EnsuredDaysConsecutive(days: map<int, ChallengeDay>, today: Date)
    ensures days == map[] ==> Consecutive(EnsuredDays(days, today), today)
    ensures 1 in days && Consecutive(days, days[1].date) ==>
      Consecutive(EnsuredDays(days, today), days[1].date)
  {
    EnsuredDaysPreserves(days, today);
  }

  // ----- Tasks -----

  /** The task row inserted for a catalogue entry: not completed, no variant. */
  function NewTask(dayId: int, e: TaskDef): Task
  {
    Task(dayId, e.key, e.title, e.required, false, None)
  }

  /** Whether a catalogue entry applies to a day with the given window flag. */
  predicate Applies(e: TaskDef, isPms: bool)
  {
    !(e.pmsOnly && !isPms)
  }

  /** The keys of a sequence of task rows. */
  function RowKeys(rows: seq<Task>): set<TaskKey>
  {
    set t | t in rows :: t.key
  }

  /** No two rows carry the same key. */
  predicate DistinctRows(r: seq<Task>)
  {
    forall i, j :: 0 <= i < j < |r| ==> r[i].key != r[j].key
  }

  /** The keys of the task rows of one challenge day. */
  function KeysFor(rows: seq<Task>, dayId: int): set<TaskKey>
  {
    set t | t in rows && t.challengeDayId == dayId :: t.key
  }

  /** The keys of the entries of `cat` that apply to a day with the given window flag. */
  function CatKeys(cat: seq<TaskDef>, isPms: bool): set<TaskKey>
  {
    set e | e in cat && Applies(e, isPms) :: e.key
  }

  lemma CatKeysCons(cat: seq<TaskDef>, isPms: bool)
    requires cat != []
    ensures CatKeys(cat, isPms)
         == (if Applies(cat[0], isPms) then {cat[0].key} else {}) + CatKeys(cat[1..], isPms)
  {
    assert cat == [cat[0]] + cat[1..];
  }

  lemma RowKeysCons(t: Task, rest: seq<Task>)
    ensures RowKeys([t] + rest) == {t.key} + RowKeys(rest)
  {
  }

  /** The catalogue keys that apply to a day with the given window flag. */
  function Applicable(isPms: bool): set<TaskKey>
  {
    CatKeys(DefaultTasks, isPms)
  }

  /** In the window all seven keys apply; outside it all but the rest task. */
  lemma ApplicableKeys(isPms: bool)
    ensures Applicable(isPms) == if isPms then AllTaskKeys else AllTaskKeys - {RestRecovery}
  {
    TaskKeysEnumerated();
    CatalogFlags();
    forall k | k in Applicable(isPms) ensures isPms || k != RestRecovery {
      var e :| e in DefaultTasks && Applies(e, isPms) && e.key == k;
    }
    forall k | isPms || k != RestRecovery ensures k in Applicable(isPms) {
      assert Applies(Entry(k), isPms);
    }
  }

  /**
   * The rows planned for the catalogue entries `cat`, in catalogue order:
   * one row per entry that applies and whose key is not yet present.
   */
  function Planned(cat: seq<TaskDef>, dayId: int, existing: set<TaskKey>, isPms: bool): seq<Task>
  {
    if cat == [] then []
    else
      var e := cat[0];
      var rest := Planned(cat[1..], dayId, existing, isPms);
      if Applies(e, isPms) && e.key !in existing then [NewTask(dayId, e)] + rest else rest
  }

  /**
   * The planned rows belong to the day, carry no key already present, and
   * carry exactly the applicable catalogue keys not yet present.
   */
  lemma {:induction false} PlannedRows(cat: seq<TaskDef>, dayId: int, existing: set<TaskKey>, isPms: bool)
    ensures var r := Planned(cat, dayId, existing, isPms);
      |r| <= |cat| &&
      (forall t :: t in r ==> t.challengeDayId == dayId && t.key !in existing) &&
      RowKeys(r) == CatKeys(cat, isPms) - existing
  {
    if cat != [] {
      var e := cat[0];
      var rest := Planned(cat[1..], dayId, existing, isPms);
      PlannedRows(cat[1..], dayId, existing, isPms);
      CatKeysCons(cat, isPms);
      if Applies(e, isPms) && e.key !in existing {
        RowKeysCons(NewTask(dayId, e), rest);
      }
    }
  }

  /** Every planned row is the row of an applicable catalogue entry. */
  lemma {:induction false} PlannedFromCatalog(cat: seq<TaskDef>, dayId: int, existing: set<TaskKey>, isPms: bool)
    ensures forall t :: t in Planned(cat, dayId, existing, isPms) ==>
      exists e :: e in cat && Applies(e, isPms) && t == NewTask(dayId, e)
  {
    if cat != [] {
      PlannedFromCatalog(cat[1..], dayId, existing, isPms);
    }
  }

  /** A catalogue with distinct keys plans rows with distinct keys. */
  lemma {:induction false} PlannedDistinct(cat: seq<TaskDef>, dayId: int, existing: set<TaskKey>, isPms: bool)
    requires DistinctKeys(cat)
    ensures DistinctRows(Planned(cat, dayId, existing, isPms))
  {
    if cat != [] {
      var rest := cat[1..];
      assert DistinctKeys(rest) by {
        forall i, j | 0 <= i < j < |rest| ensures rest[i].key != rest[j].key {
          assert rest[i] == cat[i + 1] && rest[j] == cat[j + 1];
        }
      }
      PlannedDistinct(rest, dayId, existing, isPms);
      PlannedRows(rest, dayId, existing, isPms);
      var r' := Planned(rest, dayId, existing, isPms);
      forall e | e in rest ensures e.key != cat[0].key {
        var i :| 0 <= i < |rest| && rest[i] == e;
        assert cat[i + 1] == e;
      }
      forall j | 0 <= j < |r'| ensures r'[j].key != cat[0].key {
        assert r'[j].key in CatKeys(rest, isPms) by {
          assert r'[j].key in RowKeys(r');
        }
        var e :| e in rest && Applies(e, isPms) && e.key == r'[j].key;
      }
      var r := Planned(cat, dayId, existing, isPms);
      if Applies(cat[0], isPms) && cat[0].key !in existing {
        assert r == [NewTask(dayId, cat[0])] + r';
        forall i, j | 0 <= i < j < |r| ensures r[i].key != r[j].key {
          assert r[j] == r'[j - 1];
          assert r'[j - 1].key != cat[0].key;
          if i > 0 {
            assert r[i] == r'[i - 1];
            assert r'[i - 1].key != r'[j - 1].key;
          } else {
            assert r[i].key == cat[0].key;
          }
        }
      } else {
        assert r == r';
      }
    }
  }

  /**
   * The rows `ensureTasks` inserts for a day whose present keys are
   * `existing`: exactly the applicable keys not yet present, one row each.
   */
  function NewTasks(dayId: int, existing: set<TaskKey>, isPms: bool): (r: seq<Task>)
    ensures RowKeys(r) == Applicable(isPms) - existing
    ensures DistinctRows(r)
    ensures forall t :: t in r ==> t.challengeDayId == dayId
  {
    CatalogDistinct();
    PlannedRows(DefaultTasks, dayId, existing, isPms);
    PlannedDistinct(DefaultTasks, dayId, existing, isPms);
    Planned(DefaultTasks, dayId, existing, isPms)
  }

  /**
   * Each inserted row carries its catalogue entry's title and required
   * flag, and starts not completed and without a variant.
   */
  lemma NewTasksFromCatalog(dayId: int, existing: set<TaskKey>, isPms: bool)
    ensures forall t :: t in NewTasks(dayId, existing, isPms) ==> t == NewTask(dayId, Entry(t.key))
  {
    CatalogEntries();
    PlannedFromCatalog(DefaultTasks, dayId, existing, isPms);
  }

  /** One step of the planning loop: the first catalogue entry's row, if any, then the rest. */
  lemma PlannedStep(cat: seq<TaskDef>, dayId: int, existing: set<TaskKey>, isPms: bool)
    requires cat != []
    ensures Planned(cat, dayId, existing, isPms)
         == (if Applies(cat[0], isPms) && cat[0].key !in existing then [NewTask(dayId, cat[0])] else [])
            + Planned(cat[1..], dayId, existing, isPms)
  {
  }

  /** Appending rows of one day leaves every other day's keys as they were. */
  lemma OtherDaysUnchanged(rows: seq<Task>, added: seq<Task>, dayId: int)
    requires forall t :: t in added ==> t.challengeDayId == dayId
    ensures forall n :: n != dayId ==> KeysFor(rows + added, n) == KeysFor(rows, n)
  {
    forall n | n != dayId ensures KeysFor(rows + added, n) == KeysFor(rows, n) {
      KeysForAppend(rows, added, n);
      assert KeysFor(added, n) == {};
    }
  }

  lemma KeysForAppend(a: seq<Task>, b: seq<Task>, dayId: int)
    ensures KeysFor(a + b, dayId) == KeysFor(a, dayId) + KeysFor(b, dayId)
  {
  }

  /** The task rows after a call whose read and insert both succeed. */
  function AfterEnsureTasks(rows: seq<Task>, dayId: int, isPms: bool): (r: seq<Task>)
    ensures KeysFor(r, dayId) == KeysFor(rows, dayId) + Applicable(isPms)
    ensures forall n :: n != dayId ==> KeysFor(r, n) == KeysFor(rows, n)
    ensures rows <= r
  {
    var added := NewTasks(dayId, KeysFor(rows, dayId), isPms);
    KeysForAppend(rows, added, dayId);
    assert KeysFor(added, dayId) == RowKeys(added);
    forall n | n != dayId ensures KeysFor(rows + added, n) == KeysFor(rows, n) {
      KeysForAppend(rows, added, n);
      assert KeysFor(added, n) == {};
    }
    rows + added
  }

  /**
   * Two successful calls for the same day leave the union of both calls'
   * applicable keys. A day's rest task is thus never removed, but it is
   * added by a later call made inside the window.
   */
  lemma EnsureTasksTwice(rows: seq<Task>, dayId: int, first: bool, second: bool)
    ensures KeysFor(AfterEnsureTasks(AfterEnsureTasks(rows, dayId, first), dayId, second), dayId)
         == KeysFor(rows, dayId) + Applicable(first) + Applicable(second)
  {
    var r1 := AfterEnsureTasks(rows, dayId, first);
    assert KeysFor(r1, dayId) == KeysFor(rows, dayId) + Applicable(first);
  }

  /** A second successful call with the same window flag inserts nothing. */
  lemma EnsureTasksIdempotent(rows: seq<Task>, dayId: int, isPms: bool)
    ensures AfterEnsureTasks(AfterEnsureTasks(rows, dayId, isPms), dayId, isPms)
         == AfterEnsureTasks(rows, dayId, isPms)
  {
    var r1 := AfterEnsureTasks(rows, dayId, isPms);
    var added := NewTasks(dayId, KeysFor(r1, dayId), isPms);
    assert RowKeys(added) == {};
    DistinctRowsSize(added);
    assert r1 + added == r1;
  }

  /**
   * The task rows after one `ensureTasks` call, whatever its read and
   * insert do. A failed read makes every key count as absent; a failed
   * insert appends nothing. Old rows stay a prefix, only the day's own
   * keys can change, and a successful insert always leaves the day with
   * every applicable key.
   */
  function EnsureTasksRows(rows: seq<Task>, dayId: int, isPms: bool, fetchOk: bool, insertOk: bool): (r: seq<Task>)
    ensures rows <= r
    ensures KeysFor(r, dayId) == KeysFor(rows, dayId) + (if insertOk then Applicable(isPms) else {})
    ensures forall n :: n != dayId ==> KeysFor(r, n) == KeysFor(rows, n)
    ensures fetchOk && insertOk ==> r == AfterEnsureTasks(rows, dayId, isPms)
    ensures !insertOk ==> r == rows
  {
    var added := if insertOk then NewTasks(dayId, if fetchOk then KeysFor(rows, dayId) else {}, isPms) else [];
    KeysForAppend(rows, added, dayId);
    assert KeysFor(added, dayId) == RowKeys(added);
    OtherDaysUnchanged(rows, added, dayId);
    assert !insertOk ==> rows + added == rows;
    rows + added
  }

  /**
   * A day with no tasks gets six tasks outside the window, without the
   * rest task; inside the window it gets all seven.
   */
  lemma FreshDayTasks(dayId: int, isPms: bool)
    ensures var r := NewTasks(dayId, {}, isPms);
      |r| == (if isPms then 7 else 6) && (RestRecovery in RowKeys(r) <==> isPms)
  {
    TaskKeysEnumerated();
    ApplicableKeys(isPms);
    var r := NewTasks(dayId, {}, isPms);
    DistinctRowsSize(r);
    assert RowKeys(r) == Applicable(isPms);
    if !isPms {
      assert |AllTaskKeys - {RestRecovery}| == 6;
    }
  }

  /** Every inserted task is required except the rest task. */
  lemma NewTasksRequired(dayId: int, existing: set<TaskKey>, isPms: bool)
    ensures forall t :: t in NewTasks(dayId, existing, isPms) ==> (t.required <==> t.key != RestRecovery)
  {
    NewTasksFromCatalog(dayId, existing, isPms);
    CatalogFlags();
    forall t | t in NewTasks(dayId, existing, isPms) ensures t.required <==> t.key != RestRecovery {
      assert Entry(t.key) in DefaultTasks;
    }
  }

  /** Rows with pairwise distinct keys are as many as their keys. */
  lemma {:induction false} DistinctRowsSize(r: seq<Task>)
    requires DistinctRows(r)
    ensures |RowKeys(r)| == |r|
  {
    if r != [] {
      var rest := r[1..];
      DistinctRowsSize(rest);
      assert RowKeys(r) == {r[0].key} + RowKeys(rest);
      assert r[0].key !in RowKeys(rest);
    }
  }

  /** The number of rows of a day with a given key. */
  function KeyCount(rows: seq<Task>, dayId: int, k: TaskKey): (c: nat)
    ensures c <= |rows|
    ensures c > 0 <==> k in KeysFor(rows, dayId)
  {
    if rows == [] then 0
    else
      var rest := KeyCount(rows[1..], dayId, k);
      assert rows == [rows[0]] + rows[1..];
      if rows[0].challengeDayId == dayId && rows[0].key == k then 1 + rest else rest
  }

  lemma {:induction false} KeyCountAppend(a: seq<Task>, b: seq<Task>, dayId: int, k: TaskKey)
    ensures KeyCount(a + b, dayId, k) == KeyCount(a, dayId, k) + KeyCount(b, dayId, k)
  {
    if a != [] {
      assert a + b != [] && (a + b)[0] == a[0];
      assert (a + b)[1..] == a[1..] + b;
      KeyCountAppend(a[1..], b, dayId, k);
      var h := if a[0].challengeDayId == dayId && a[0].key == k then 1 else 0;
      assert KeyCount(a, dayId, k) == h + KeyCount(a[1..], dayId, k);
      assert KeyCount(a + b, dayId, k) == h + KeyCount(a[1..] + b, dayId, k);
    } else {
      assert a + b == b;
    }
  }

  lemma {:induction false} KeyCountDistinct(r: seq<Task>, dayId: int, k: TaskKey)
    requires DistinctRows(r)
    requires forall j :: 0 <= j < |r| ==> r[j].challengeDayId == dayId
    ensures KeyCount(r, dayId, k) == if k in RowKeys(r) then 1 else 0
  {
    if r != [] {
      KeyCountDistinct(r[1..], dayId, k);
      assert RowKeys(r) == {r[0].key} + RowKeys(r[1..]);
    }
  }

  /**
   * When the read of the existing tasks fails, the source proceeds as if
   * the day had none: a successful insert then adds one more row for every
   * applicable key, so a key already present ends up on two rows.
   */
  lemma FetchFailureReinserts(rows: seq<Task>, dayId: int, isPms: bool, k: TaskKey)
    requires k in Applicable(isPms)
    ensures KeyCount(rows + NewTasks(dayId, {}, isPms), dayId, k) == KeyCount(rows, dayId, k) + 1
  {
    var added := NewTasks(dayId, {}, isPms);
    KeyCountAppend(rows, added, dayId, k);
    KeyCountDistinct(added, dayId, k);
  }

  /** The stored day numbers are 1 to the number of stored days. */
  ghost predicate NumberedFromOne(days: map<int, ChallengeDay>)
  {
    forall n :: 1 <= n <= |days| ==> n in days
  }

  /** The window flags of days 1 to hi, day n's flag at position n - 1. */
  ghost function WindowFlags(days: map<int, ChallengeDay>, s: UserSettings, hi: nat): (f: seq<bool>)
    requires forall n :: 1 <= n <= hi ==> n in days
    ensures |f| == hi
    ensures forall n :: 1 <= n <= hi ==> f[n - 1] == IsInPmsWindow(days[n].date, s)
  {
    if hi == 0 then [] else WindowFlags(days, s, hi - 1) + [IsInPmsWindow(days[hi].date, s)]
  }

  /** Per-day outcomes of the seeding loop, one entry per day in each sequence. */
  predicate SameLength(flags: seq<bool>, fetchOks: seq<bool>, insertOks: seq<bool>)
  {
    |fetchOks| == |flags| && |insertOks| == |flags|
  }

  /**
   * The task rows after `ensureTasks` calls for days 1 to |flags| in
   * order: day n with window flag flags[n - 1], its read succeeding when
   * fetchOks[n - 1] and its insert when insertOks[n - 1].
   */
  function TasksThrough(rows: seq<Task>, flags: seq<bool>, fetchOks: seq<bool>, insertOks: seq<bool>): seq<Task>
    requires SameLength(flags, fetchOks, insertOks)
  {
    if flags == [] then rows
    else
      var k := |flags|;
      EnsureTasksRows(TasksThrough(rows, flags[..k - 1], fetchOks[..k - 1], insertOks[..k - 1]),
                      k, flags[k - 1], fetchOks[k - 1], insertOks[k - 1])
  }

  /** One more day of the seeding loop: the call for day n on the rows left by days 1 to n - 1. */
  lemma TasksThroughStep(rows: seq<Task>, flags: seq<bool>, fetchOks: seq<bool>, insertOks: seq<bool>, n: nat)
    requires SameLength(flags, fetchOks, insertOks) && 1 <= n <= |flags|
    ensures TasksThrough(rows, flags[..n], fetchOks[..n], insertOks[..n])
         == EnsureTasksRows(TasksThrough(rows, flags[..n - 1], fetchOks[..n - 1], insertOks[..n - 1]),
                            n, flags[n - 1], fetchOks[n - 1], insertOks[n - 1])
  {
    assert flags[..n][..n - 1] == flags[..n - 1];
    assert fetchOks[..n][..n - 1] == fetchOks[..n - 1];
    assert insertOks[..n][..n - 1] == insertOks[..n - 1];
  }

  /**
   * Seeding the tasks of days 1 to |flags| only appends rows. Each of those
   * days whose insert succeeds ends with its old keys plus every key that
   * applies for its flag, whether or not its read succeeded; a day whose
   * insert fails keeps its keys; every other day's keys are unchanged.
   */
  lemma {:induction false} SeededKeys(rows: seq<Task>, flags: seq<bool>, fetchOks: seq<bool>, insertOks: seq<bool>)
    requires SameLength(flags, fetchOks, insertOks)
    ensures rows <= TasksThrough(rows, flags, fetchOks, insertOks)
    ensures forall n :: 1 <= n <= |flags| ==>
      KeysFor(TasksThrough(rows, flags, fetchOks, insertOks), n)
        == KeysFor(rows, n) + (if insertOks[n - 1] then Applicable(flags[n - 1]) else {})
    ensures forall n :: !(1 <= n <= |flags|) ==>
      KeysFor(TasksThrough(rows, flags, fetchOks, insertOks), n) == KeysFor(rows, n)
  {
    if flags != [] {
      var hi := |flags|;
      var init, fInit, iInit := flags[..hi - 1], fetchOks[..hi - 1], insertOks[..hi - 1];
      SeededKeys(rows, init, fInit, iInit);
      var prev := TasksThrough(rows, init, fInit, iInit);
      var r := EnsureTasksRows(prev, hi, flags[hi - 1], fetchOks[hi - 1], insertOks[hi - 1]);
      assert r == TasksThrough(rows, flags, fetchOks, insertOks);
      forall n | 1 <= n <= hi
        ensures KeysFor(r, n) == KeysFor(rows, n) + (if insertOks[n - 1] then Applicable(flags[n - 1]) else {})
      {
        if n < hi {
          assert init[n - 1] == flags[n - 1] && iInit[n - 1] == insertOks[n - 1];
          assert KeysFor(r, n) == KeysFor(prev, n);
        } else {
          assert KeysFor(prev, hi) == KeysFor(rows, hi);
        }
      }
      forall n | !(1 <= n <= hi) ensures KeysFor(r, n) == KeysFor(rows, n) {
        assert KeysFor(r, n) == KeysFor(prev, n);
      }
    }
  }

  /**
   * After seeding, a day that had no tasks and whose insert succeeded has
   * the rest task exactly when its flag is set, and all six other tasks
   * either way; a day whose insert failed still has no tasks.
   */
  lemma SeededFreshDay(rows: seq<Task>, flags: seq<bool>, fetchOks: seq<bool>, insertOks: seq<bool>, n: int)
    requires SameLength(flags, fetchOks, insertOks)
    requires 1 <= n <= |flags| && KeysFor(rows, n) == {}
    ensures var keys := KeysFor(TasksThrough(rows, flags, fetchOks, insertOks), n);
      (insertOks[n - 1] ==> (RestRecovery in keys <==> flags[n - 1]) && AllTaskKeys - {RestRecovery} <= keys) &&
      (!insertOks[n - 1] ==> keys == {})
  {
    SeededKeys(rows, flags, fetchOks, insertOks);
    ApplicableKeys(flags[n - 1]);
  }

  /**
   * The planning loop of `ensureTasks` over a catalogue (the source walks
   * its fixed catalogue): skip the window-only entries outside the window
   * and the keys already present, and collect a fresh row for each
   * remaining entry, in catalogue order.
   */
  method PlanTasks(catalog: seq<TaskDef>, dayId: int, existingKeys: set<TaskKey>, isPms: bool)
    returns (tasksToCreate: seq<Task>)
    ensures tasksToCreate == Planned(catalog, dayId, existingKeys, isPms)
  {
    tasksToCreate := [];
    for i := 0 to |catalog|
      invariant tasksToCreate + Planned(catalog[i..], dayId, existingKeys, isPms)
             == Planned(catalog, dayId, existingKeys, isPms)
    {
      var task := catalog[i];
      ghost var rest := Planned(catalog[i + 1..], dayId, existingKeys, isPms);
      PlannedStep(catalog[i..], dayId, existingKeys, isPms);
      assert catalog[i..][1..] == catalog[i + 1..];
      if task.pmsOnly && !isPms {
        continue;
      }
      if task.key !in existingKeys {
        assert tasksToCreate + ([NewTask(dayId, task)] + rest) == (tasksToCreate + [NewTask(dayId, task)]) + rest;
        tasksToCreate := tasksToCreate + [NewTask(dayId, task)];
      }
    }
    assert catalog[|catalog|..] == [];
  }

  /**
   * The rows collected so far, keyed by number, are the fresh days of the
   * missing numbers below i.
   */
  ghost predicate CollectedBelow(m: map<int, ChallengeDay>, existing: set<int>, startDate: Date, i: int)
  {
    (forall n :: n in m <==> 1 <= n < i && n !in existing) &&
    (forall n :: n in m ==> m[n] == FreshDay(n, startDate + n - 1))
  }

  /** One step of the collecting loop: number i is added exactly when it is missing. */
  lemma CollectedStep(rows: seq<ChallengeDay>, existing: set<int>, startDate: Date, i: int)
    requires 1 <= i && CollectedBelow(ByNumber(rows), existing, startDate, i)
    ensures i in existing ==> CollectedBelow(ByNumber(rows), existing, startDate, i + 1)
    ensures i !in existing ==>
      CollectedBelow(ByNumber(rows + [FreshDay(i, startDate + i - 1)]), existing, startDate, i + 1)
  {
    var m, d := ByNumber(rows), FreshDay(i, startDate + i - 1);
    if i !in existing {
      ByNumberSnoc(rows, d);
      var m' := ByNumber(rows + [d]);
      assert m' == m[i := d];
      forall n ensures n in m' <==> 1 <= n < i + 1 && n !in existing {
      }
      forall n | n in m' ensures m'[n] == FreshDay(n, startDate + n - 1) {
        if n != i {
          assert m'[n] == m[n];
        }
      }
    }
  }

  /**
   * The loop of `ensureChallengeDays` that builds the rows to insert: for
   * n from 1 to 75, a fresh day dated `startDate + (n - 1)` for every n not
   * among the existing day numbers, once each and in ascending order.
   */
  method CollectMissingDays(existing: set<int>, startDate: Date) returns (missingDays: seq<ChallengeDay>)
    ensures forall n :: n in ByNumber(missingDays) <==> InChallenge(n) && n !in existing
    ensures forall n :: n in ByNumber(missingDays) ==>
      ByNumber(missingDays)[n] == FreshDay(n, startDate + n - 1)
    ensures Ascending(missingDays)
  {
    missingDays := [];
    for i := 1 to ChallengeLength + 1
      invariant CollectedBelow(ByNumber(missingDays), existing, startDate, i)
      invariant AscendingBelow(missingDays, i)
    {
      var day := FreshDay(i, startDate + i - 1);
      CollectedStep(missingDays, existing, startDate, i);
      AscendingStep(missingDays, day, i);
      if i !in existing {
        missingDays := missingDays + [day];
      }
    }
  }

  /** The challenge days and task rows of one user. */
  class Store {
    var days: map<int, ChallengeDay>
    var taskRows: seq<Task>

    /** Each day is stored under its own day number, and day numbers lie in 1..75. */
    ghost predicate Valid()
      reads this
    {
      KeyedByNumber(days) && WithinChallenge(days)
    }

    constructor ()
      ensures Valid() && days == map[] && taskRows == []
    {
      days := map[];
      taskRows := [];
    }

    /**
     * `ensureChallengeDays`: a failed read or insert changes nothing;
     * otherwise the days become `EnsuredDays` of the old days. Tasks are
     * untouched.
     */
    method EnsureChallengeDays(today: Date, fetchOk: bool, insertOk: bool)
      requires Valid()
      modifies this
      ensures Valid()
      ensures days == if fetchOk && insertOk then EnsuredDays(old(days), today) else old(days)
      ensures taskRows == old(taskRows)
    {
      if !fetchOk {
        return;
      }
      var existing := days.Keys;
      if |existing| == ChallengeLength {
        EnsuredDaysKeys(days, today);
        return;
      }
      var startDate: Date;
      if |days| > 0 {
        startDate := if 1 in days then days[1].date else today;
      } else {
        startDate := today;
      }
      var missingDays := CollectMissingDays(existing, startDate);
      MissingAreAdded(days, ByNumber(missingDays), startDate);
      EnsuredDaysUnfold(days, today);
      EnsuredDaysKeys(days, today);
      if |missingDays| > 0 && insertOk {
        days := days + ByNumber(missingDays);
      } else if insertOk {
        assert days + ByNumber(missingDays) == days;
      }
    }

    /**
     * `ensureTasks`: appends the rows for the applicable catalogue keys
     * not yet present for the day (all of them when the read failed), or
     * nothing when the insert fails. Nothing is removed or changed, and
     * only the day's own keys can grow.
     */
    method EnsureTasks(dayId: int, isPms: bool, fetchOk: bool, insertOk: bool)
      modifies this
      ensures days == old(days)
      ensures taskRows == old(taskRows) +
        (if insertOk then NewTasks(dayId, if fetchOk then KeysFor(old(taskRows), dayId) else {}, isPms) else [])
      ensures taskRows == EnsureTasksRows(old(taskRows), dayId, isPms, fetchOk, insertOk)
      ensures fetchOk && insertOk ==> taskRows == AfterEnsureTasks(old(taskRows), dayId, isPms)
      ensures forall n :: n != dayId ==> KeysFor(taskRows, n) == old(KeysFor(taskRows, n))
    {
      var existingKeys := if fetchOk then KeysFor(taskRows, dayId) else {};
      var tasksToCreate := PlanTasks(DefaultTasks, dayId, existingKeys, isPms);
      assert tasksToCreate == NewTasks(dayId, existingKeys, isPms);
      OtherDaysUnchanged(taskRows, tasksToCreate, dayId);
      if |tasksToCreate| > 0 && insertOk {
        taskRows := taskRows + tasksToCreate;
      } else {
        assert taskRows + [] == taskRows;
      }
    }

    /**
     * The seeding part of `seedUserData`: ensure the challenge days, then,
     * when the settings could be read, ensure each day's tasks in
     * day-number order, with the window flag computed from that day's own
     * date; day n's task read and insert succeed when fetchOks[n - 1] and
     * insertOks[n - 1]. The stored days end up exactly 1..75.
     */
    method SeedUserData(today: Date, settings: Option<UserSettings>, fetchOks: seq<bool>, insertOks: seq<bool>)
      requires Valid()
      requires |fetchOks| == ChallengeLength && |insertOks| == ChallengeLength
      modifies this
      ensures Valid()
      ensures days == EnsuredDays(old(days), today)
      ensures forall n :: n in days <==> InChallenge(n)
      ensures |days| == ChallengeLength && NumberedFromOne(days)
      ensures settings.None? ==> taskRows == old(taskRows)
      ensures settings.Some? ==>
        taskRows == TasksThrough(old(taskRows), WindowFlags(days, settings.value, |days|), fetchOks, insertOks)
    {
      EnsureChallengeDays(today, true, true);
      EnsuredDaysComplete(old(days), today);
      if settings.None? {
        return;
      }
      EnsureAllTasks(settings.value, |days|, fetchOks, insertOks);
    }

    /**
     * The task loop of `seedUserData` over the `count` days the store
     * lists, in day-number order: `ensureTasks` for each with the window
     * flag of that day's date, going on past a failed read or insert.
     */
    method EnsureAllTasks(s: UserSettings, count: nat, fetchOks: seq<bool>, insertOks: seq<bool>)
      requires forall n :: 1 <= n <= count ==> n in days
      requires |fetchOks| == count && |insertOks| == count
      modifies this
      ensures days == old(days)
      ensures taskRows == TasksThrough(old(taskRows), WindowFlags(days, s, count), fetchOks, insertOks)
    {
      ghost var flags := WindowFlags(days, s, count);
      for n := 1 to count + 1
        invariant days == old(days)
        invariant taskRows == TasksThrough(old(taskRows), flags[..n - 1], fetchOks[..n - 1], insertOks[..n - 1])
      {
        var isPms := IsInPmsWindow(days[n].date, s);
        EnsureTasks(n, isPms, fetchOks[n - 1], insertOks[n - 1]);
        TasksThroughStep(old(taskRows), flags, fetchOks, insertOks, n);
      }
      assert flags[..count] == flags && fetchOks[..count] == fetchOks && insertOks[..count] == insertOks;
    }
  }
}
