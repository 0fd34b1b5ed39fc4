/**
 The scheduler: records shared by an index ordered by time and an index by handle, and the timer
 that pops, re-inserts and fires them. Each public method is one section under the scheduler's lock,
 so every interleaving of clients and timer is a sequence of these methods.
 */
module Scheduler {
  import Cron
  import Decimal

  /** Ticks of the clock. */
  const SECOND := 1_000_000_000
  const IDLE := 10 * SECOND

  datatype Tm = Tm(sec: int, min: int, hour: int, mday: int, mon: int, year: int, wday: int) {
    /** A minute may end in a leap second. */
    predicate Valid() { 0 <= sec <= 60 }
  }

  /** The second that a clock shows at a key. */
  function Second(key: int): (sec: int)
    ensures 0 <= sec <= 59
  {
    key / SECOND % 60
  }

  /**
   A delay found from the second `sec` and counted from `from` leads to a second that the pattern allows exactly when
   counting from the second of `from` does; with a single second, exactly when the two seconds are the same.
   */
  lemma Shifts(vsec: seq<int>, from: int, sec: int, d: int)
    requires Cron.Seconds(vsec) && 0 <= sec <= 59 && Cron.AllowsAfter(vsec, sec, d)
    ensures Cron.Allows(vsec, Second(from + d * SECOND)) <==> Cron.AllowsAfter(vsec, Second(from), d)
    ensures |vsec| == 1 ==> (Cron.Allows(vsec, Second(from + d * SECOND)) <==> Second(from) == sec)
  {
    assert (from + d * SECOND) / SECOND == from / SECOND + d;
    assert (Second(from) + d) % 60 == Second(from + d * SECOND);
  }

  /** Second 30, looked for at second 10 and counted from the 40th, is filed for the full minute. */
  lemma SecondMissed()
    ensures Cron.AllowsAfter([30], 10, 20) && forall d :: 1 <= d < 20 ==> !Cron.AllowsAfter([30], 10, d)
    ensures Second(40 * SECOND + 20 * SECOND) == 0 && !Cron.Allows([30], 0)
  {
  }

  /** A draw of the random generator as a handle: never zero. */
  function HandleOf(val: int): (h: int)
    ensures h != 0
  {
    if val != 0 then val else val + 1
  }

  class ScheduleRecord {
    const clientId: string
    const task: string
    const exactTime: bool
    const periodic: bool
    const period: int
    const startTime: int
    const vsec: seq<int>
    const vmin: seq<int>
    const vhour: seq<int>
    const vmday: seq<int>
    const vmon: seq<int>
    const vyear: seq<int>
    const vwday: seq<int>
    var started: bool
    var taskHandle: int

    /** Once, at a given time. */
    constructor At(clientId: string, task: string, tp: int, val: int)
      ensures WellFormed() && !started && taskHandle == HandleOf(val)
      ensures exactTime && !periodic && startTime == tp && this.clientId == clientId && this.task == task
    {
      this.clientId, this.task := clientId, task;
      exactTime, periodic, startTime, period := true, false, tp, 0;
      vsec, vmin, vhour, vmday, vmon, vyear, vwday := [], [], [], [], [], [], [];
      started, taskHandle := false, HandleOf(val);
    }

    /** First at a given time, then every `sec` seconds. */
    constructor Periodic(clientId: string, task: string, sec: int, tp: int, val: int)
      ensures WellFormed() && !started && taskHandle == HandleOf(val)
      ensures !exactTime && periodic && period == sec && startTime == tp
      ensures this.clientId == clientId && this.task == task
    {
      this.clientId, this.task := clientId, task;
      exactTime, periodic, startTime, period := false, true, tp, sec;
      vsec, vmin, vhour, vmday, vmon, vyear, vwday := [], [], [], [], [], [], [];
      started, taskHandle := false, HandleOf(val);
    }

    /** Whenever the clock matches a pattern of seven items. */
    constructor Pattern(clientId: string, task: string, sec: seq<int>, min: seq<int>, hour: seq<int>,
                        mday: seq<int>, mon: seq<int>, year: seq<int>, wday: seq<int>, val: int)
      requires Cron.Seconds(sec)
      ensures WellFormed() && !started && taskHandle == HandleOf(val)
      ensures !exactTime && !periodic && this.clientId == clientId && this.task == task
      ensures vsec == sec && vmin == min && vhour == hour
      ensures vmday == mday && vmon == mon && vyear == year && vwday == wday
    {
      this.clientId, this.task := clientId, task;
      exactTime, periodic, startTime, period := false, false, 0, 0;
      vsec, vmin, vhour, vmday, vmon, vyear, vwday := sec, min, hour, mday, mon, year, wday;
      started, taskHandle := false, HandleOf(val);
    }

    ghost predicate WellFormed() {
      && !(exactTime && periodic)
      && (!exactTime && !periodic ==> Cron.Seconds(vsec))
    }

    /** It is due again after it was popped. */
    predicate Recurring() {
      !exactTime && (periodic ==> period >= 0)
    }

    /** The least distance of its keys. */
    function Gap(): int {
      if periodic then period * SECOND else 0
    }

    /** The key a call with this clock reading gives, the state being `was` started. */
    ghost predicate NextKey(was: bool, timePoint: int, tm: Tm, key: int)
      requires WellFormed()
    {
      if exactTime then key == startTime
      else if periodic then key == if was then timePoint + period * SECOND else startTime
      else
        exists d: int :: 0 <= d <= 60 && key == timePoint + d * SECOND && Closest(tm, d)
    }

    /** The delay leads to the closest second of the pattern. */
    ghost predicate Closest(tm: Tm, d: int)
      requires WellFormed() && !exactTime && !periodic
    {
      0 <= tm.sec <= 59 ==>
        && 1 <= d && Cron.AllowsAfter(vsec, tm.sec, d)
        && forall e :: 1 <= e < d ==> !Cron.AllowsAfter(vsec, tm.sec, e)
    }

    /** Filed at a key counted from the deadline, with the delay that the calendar shows: whether that is allowed. */
    ghost predicate Refiled(deadline: int, tm: Tm, key: int)
      requires WellFormed() && !exactTime && !periodic
    {
      exists d: int :: key == deadline + d * SECOND && Closest(tm, d)
        && (Cron.Allows(vsec, Second(key)) <==> Cron.AllowsAfter(vsec, Second(deadline), d))
        && (|vsec| == 1 ==> (Cron.Allows(vsec, Second(key)) <==> Second(deadline) == tm.sec))
    }

    method GetNext(timePoint: int, tm: Tm) returns (tp: int)
      requires WellFormed() && tm.Valid()
      modifies this`started
      ensures NextKey(old(started), timePoint, tm, tp)
      ensures started == (old(started) || periodic)
    {
      if exactTime {
        return startTime;
      }
      if !periodic {
        var dsec := Cron.NextSecond(vsec, tm.sec);
        assert Closest(tm, dsec);
        return timePoint + dsec * SECOND;
      }
      if started {
        tp := timePoint + period * SECOND;
      } else {
        tp := startTime;
        started := true;
      }
    }

    /** Each item of the pattern, after its seconds, allows what the clock shows. */
    ghost predicate Fires(tm: Tm) {
      || exactTime || periodic
      || (Cron.Fits(tm.min, vmin) && Cron.Fits(tm.hour, vhour) && Cron.Fits(tm.mday, vmday)
          && Cron.Fits(tm.mon, vmon) && Cron.Fits(tm.year, vyear) && Cron.Fits(tm.wday, vwday))
    }

    method VerifyTimePattern(tm: Tm) returns (ok: bool)
      ensures ok <==>
                || exactTime || periodic
                || (Cron.Fits(tm.min, vmin) && Cron.Fits(tm.hour, vhour) && Cron.Fits(tm.mday, vmday)
                    && Cron.Fits(tm.mon, vmon) && Cron.Fits(tm.year, vyear) && Cron.Fits(tm.wday, vwday))
    {
      if !periodic && !exactTime {
        ok := Cron.Matches(tm.min, vmin);
        if !ok {
          return;
        }
        ok := Cron.Matches(tm.hour, vhour);
        if !ok {
          return;
        }
        ok := Cron.Matches(tm.mday, vmday);
        if !ok {
          return;
        }
        ok := Cron.Matches(tm.mon, vmon);
        if !ok {
          return;
        }
        ok := Cron.Matches(tm.year, vyear);
        if !ok {
          return;
        }
        ok := Cron.Matches(tm.wday, vwday);
        if !ok {
          return;
        }
      }
      return true;
    }
  }

  /** No value in range is a multiple. */
  ghost predicate NoMultiple(n: nat, mnm: int, mxm: int)
    requires n > 0
  {
    forall k :: mnm <= k <= mxm ==> k % n != 0
  }

  /** A field fits an item with a solidus exactly at the multiples, except that an item without any fits everything. */
  lemma {:induction false} SolidusFits(before: string, n: nat, mnm: nat, mxm: int, offset: int, cval: int)
    requires '/' !in before && 0 < n <= Cron.INT_MAX && mnm + offset >= 0
    ensures
      var r := Cron.Item(before + "/" + Decimal.Print(n), mnm, mxm, offset);
      r.Items? && (Cron.Fits(cval, r.values) <==> NoMultiple(n, mnm, mxm) || Cron.InSteps(cval, mnm, n, mxm, offset))
  {
    Cron.SolidusItem(before, n, mnm, mxm, offset);
    FitsMultiples(Cron.Item(before + "/" + Decimal.Print(n), mnm, mxm, offset).values, n, mnm, mxm, offset, cval);
  }

  lemma FitsMultiples(values: seq<int>, n: nat, mnm: nat, mxm: int, offset: int, cval: int)
    requires n > 0 && mnm + offset >= 0 && forall y :: y in values <==> Cron.InSteps(y, mnm, n, mxm, offset)
    ensures Cron.Fits(cval, values) <==> NoMultiple(n, mnm, mxm) || Cron.InSteps(cval, mnm, n, mxm, offset)
  {
    if values == [] {
      forall k | mnm <= k <= mxm ensures k % n != 0 {
        assert k + offset !in values;
      }
    } else {
      var y := values[0];
      assert y in values;
      assert (y - offset) % n == 0;
    }
  }

  /** A pattern for every fortieth day fits every day. */
  lemma FortiethDay(cval: int)
    ensures var r := Cron.Item("/40", 1, 31, 0); r.Items? && Cron.Fits(cval, r.values)
  {
    assert Decimal.Print(4) == "4";
    assert "" + "/" + Decimal.Print(40) == "/40";
    SolidusFits("", 40, 1, 31, 0, cval);
  }

  // The index by time: entries in key order, equal keys in the order of their insertion.

  datatype Entry = Entry(key: int, record: ScheduleRecord)

  predicate Ordered(s: seq<Entry>) {
    forall i, j :: 0 <= i < j < |s| ==> s[i].key <= s[j].key
  }

  predicate Distinct(s: seq<Entry>) {
    forall i, j :: 0 <= i < j < |s| ==> s[i].record != s[j].record
  }

  function Waiting(s: seq<Entry>): set<ScheduleRecord> {
    set e | e in s :: e.record
  }

  /** Past every key that is not greater. */
  function UpperBound(s: seq<Entry>, key: int): (k: nat)
    ensures k <= |s|
    ensures k < |s| ==> s[k].key > key
    ensures forall j :: 0 <= j < k ==> s[j].key <= key
  {
    if s == [] || s[0].key > key then 0 else 1 + UpperBound(s[1..], key)
  }

  function Inserted(s: seq<Entry>, e: Entry): seq<Entry> {
    var k := UpperBound(s, e.key);
    s[..k] + [e] + s[k..]
  }

  lemma InsertedHas(s: seq<Entry>, e: Entry, x: Entry)
    ensures x in Inserted(s, e) <==> x == e || x in s
  {
  }

  lemma InsertedOrdered(s: seq<Entry>, e: Entry)
    requires Ordered(s)
    ensures Ordered(Inserted(s, e))
  {
  }

  lemma InsertedDistinct(s: seq<Entry>, e: Entry)
    requires Distinct(s) && e.record !in Waiting(s)
    ensures Distinct(Inserted(s, e)) && Waiting(Inserted(s, e)) == Waiting(s) + {e.record}
  {
  }

  /** The entries of all other records. */
  function Without(s: seq<Entry>, gone: set<ScheduleRecord>): (r: seq<Entry>)
    ensures |r| <= |s|
  {
    if s == [] then []
    else if s[0].record in gone then Without(s[1..], gone)
    else [s[0]] + Without(s[1..], gone)
  }

  lemma {:induction false} WithoutIs(s: seq<Entry>, gone: set<ScheduleRecord>, e: Entry)
    ensures e in Without(s, gone) <==> e in s && e.record !in gone
  {
    if s != [] {
      WithoutIs(s[1..], gone, e);
    }
  }

  lemma {:induction false} WithoutOrdered(s: seq<Entry>, gone: set<ScheduleRecord>)
    requires Ordered(s) && Distinct(s)
    ensures Ordered(Without(s, gone)) && Distinct(Without(s, gone))
  {
    if s != [] {
      var rest := Without(s[1..], gone);
      WithoutOrdered(s[1..], gone);
      forall k | 0 <= k < |rest| ensures s[0].key <= rest[k].key && s[0].record != rest[k].record {
        WithoutIs(s[1..], gone, rest[k]);
      }
    }
  }

  lemma {:induction false} WithoutTwice(s: seq<Entry>, a: set<ScheduleRecord>, b: set<ScheduleRecord>)
    ensures Without(Without(s, a), b) == Without(s, a + b)
  {
    if s != [] {
      WithoutTwice(s[1..], a, b);
      var rest := Without(s[1..], a);
      assert ([s[0]] + rest)[1..] == rest;
    }
  }

  lemma {:induction false} WithoutNone(s: seq<Entry>)
    ensures Without(s, {}) == s
  {
    if s != [] {
      WithoutNone(s[1..]);
    }
  }

  lemma {:induction false} WithoutNext(s: seq<Entry>, k: nat, gone: set<ScheduleRecord>)
    requires k < |s|
    ensures Without(s[..k + 1], gone)
         == Without(s[..k], gone) + if s[k].record in gone then [] else [s[k]]
  {
    if k > 0 {
      assert s[..k + 1][1..] == s[1..][..k] && s[..k][1..] == s[1..][..k - 1];
      WithoutNext(s[1..], k - 1, gone);
    }
  }

  function Erased(s: seq<Entry>, it: nat): seq<Entry>
    requires it < |s|
  {
    s[..it] + s[it + 1..]
  }

  /** Erasing in place: the entries before `k` have been filtered, the rest not yet. */
  ghost predicate Erasing(was: seq<Entry>, k: nat, gone: set<ScheduleRecord>, now: seq<Entry>, it: nat)
    requires k <= |was|
  {
    it == |Without(was[..k], gone)| && now == Without(was[..k], gone) + was[k..]
  }

  /** One step of erasing in place: what was passed has been filtered, the rest not yet. */
  lemma EraseStep(was: seq<Entry>, k: nat, gone: set<ScheduleRecord>, now: seq<Entry>, it: nat)
    requires k <= |was| && Erasing(was, k, gone, now, it) && it < |now|
    ensures k < |was| && now[it] == was[k] && now[it] in was
    ensures if was[k].record in gone then Erasing(was, k + 1, gone, Erased(now, it), it)
            else Erasing(was, k + 1, gone, now, it + 1)
  {
    WithoutNext(was, k, gone);
    assert was[k..] == [was[k]] + was[k + 1..];
  }

  lemma {:induction false} EraseDone(was: seq<Entry>, k: nat, gone: set<ScheduleRecord>, now: seq<Entry>, it: nat)
    requires k <= |was| && Erasing(was, k, gone, now, it) && it >= |now|
    ensures k == |was| && was[..k] == was && now == Without(was, gone)
  {
  }

  /** The handles, by `names`, of those records among the entries. */
  ghost function Handles(s: seq<Entry>, gone: set<ScheduleRecord>, names: map<ScheduleRecord, int>): set<int>
    requires forall e :: e in s ==> e.record in names
  {
    set e | e in s && e.record in gone :: names[e.record]
  }

  lemma HandlesNext(s: seq<Entry>, k: nat, gone: set<ScheduleRecord>, names: map<ScheduleRecord,
      int>)
    requires k < |s| && forall e :: e in s ==> e.record in names
    ensures Handles(s[..k + 1], gone, names)
         == Handles(s[..k], gone, names) + if s[k].record in gone then {names[s[k].record]} else {}
  {
  }

  lemma MinusTwice(m: map<int, ScheduleRecord>, a: set<int>, h: int)
    ensures m - a - {h} == m - (a + {h})
  {
  }

  lemma {:induction false} WithoutWaiting(s: seq<Entry>, gone: set<ScheduleRecord>)
    ensures Waiting(Without(s, gone)) == Waiting(s) - gone
  {
    forall e ensures e in Without(s, gone) <==> e in s && e.record !in gone {
      WithoutIs(s, gone, e);
    }
    forall r ensures r in Waiting(Without(s, gone)) <==> r in Waiting(s) - gone {
      if r in Waiting(s) - gone {
        var e :| e in s && e.record == r;
        assert e in Without(s, gone);
      }
    }
    assert Waiting(Without(s, gone)) == Waiting(s) - gone;
  }

  // The history of a run, and the firing discipline that every step keeps.

  datatype Book = Book(byTime: seq<Entry>, added: set<ScheduleRecord>, removed: set<ScheduleRecord>, pops: seq<Entry>)

  function Popped(pops: seq<Entry>): set<ScheduleRecord> {
    set e | e in pops :: e.record
  }

  /** `later` comes after `earlier` was popped: only a recurring record has both, its period apart. */
  predicate Apart(earlier: Entry, later: Entry) {
    earlier.record == later.record ==>
      earlier.record.Recurring() && later.key > earlier.key + earlier.record.Gap()
  }

  /** Pops are apart from each other and from what waits; what was not removed waits, or fired its only time. */
  ghost predicate Disciplined(b: Book) {
    && b.removed <= b.added && Waiting(b.byTime) <= b.added - b.removed
    && Popped(b.pops) <= b.added
    && (forall r :: r in b.added - b.removed - Waiting(b.byTime) ==> !r.Recurring() && r in Popped(b.pops))
    && (forall i, j :: 0 <= i < j < |b.pops| ==> Apart(b.pops[i], b.pops[j]))
    && (forall e, f :: e in b.pops && f in b.byTime ==> Apart(e, f))
  }

  lemma AddKeepsDiscipline(b: Book, e: Entry)
    requires Disciplined(b) && e.record !in b.added
    ensures Disciplined(b.(byTime := Inserted(b.byTime, e), added := b.added + {e.record}))
  {
  }

  lemma {:induction false} RemoveKeepsDiscipline(b: Book, gone: set<ScheduleRecord>)
    requires Disciplined(b) && gone <= b.added
    ensures Disciplined(b.(byTime := Without(b.byTime, gone), removed := b.removed + gone))
  {
    WithoutWaiting(b.byTime, gone);
    forall e ensures e in Without(b.byTime, gone) <==> e in b.byTime && e.record !in gone {
      WithoutIs(b.byTime, gone, e);
    }
  }

  function AfterPop(s: seq<Entry>, timePoint: int, next: int): seq<Entry>
    requires s != []
  {
    if next >= timePoint then Inserted(s[1..], Entry(next, s[0].record)) else s[1..]
  }

  lemma PopHas(s: seq<Entry>, timePoint: int, next: int, e: Entry)
    requires s != []
    ensures e in AfterPop(s, timePoint, next) <==>
              e in s[1..] || (next >= timePoint && e == Entry(next, s[0].record))
    ensures e in s[1..] ==> e in s
  {
  }

  lemma PopKeepsOrder(s: seq<Entry>, timePoint: int, next: int)
    requires s != [] && Ordered(s) && Distinct(s)
    ensures Ordered(AfterPop(s, timePoint, next)) && Distinct(AfterPop(s, timePoint, next))
  {
    var rest, e := s[1..], Entry(next, s[0].record);
    assert Ordered(rest) && Distinct(rest);
    assert e.record !in Waiting(rest);
    InsertedOrdered(rest, e);
    InsertedDistinct(rest, e);
  }

  /** Popping the first entry, and re-inserting its record when the next key is not in the past. */
  function PopNext(b: Book, timePoint: int, next: int): Book
    requires b.byTime != []
  {
    var first := b.byTime[0];
    b.(byTime := AfterPop(b.byTime, timePoint, next),
       pops := b.pops + [first])
  }

  /** A pop: what the timer compared with, and the key that the record was given next. */
  datatype Renewal = Renewal(timePoint: int, next: int)

  /** The next key of a record popped before `timePoint`: a recurring one is due again, its period later. */
  predicate Renews(r: ScheduleRecord, timePoint: int, next: int) {
    (r.Recurring() ==> next >= timePoint + r.Gap()) && (!r.Recurring() ==> next < timePoint)
  }

  lemma PopWaiting(s: seq<Entry>, timePoint: int, next: int)
    requires s != [] && Distinct(s)
    ensures Waiting(AfterPop(s, timePoint, next))
         == if next >= timePoint then Waiting(s) else Waiting(s) - {s[0].record}
  {
  }

  lemma PopKeepsDiscipline(b: Book, timePoint: int, next: int)
    requires Disciplined(b) && Distinct(b.byTime) && b.byTime != [] && b.byTime[0].key < timePoint
    requires Renews(b.byTime[0].record, timePoint, next)
    ensures Disciplined(PopNext(b, timePoint, next))
  {
    assert b.byTime[0] in b.byTime;
    PopWaiting(b.byTime, timePoint, next);
    assert Popped(PopNext(b, timePoint, next).pops) == Popped(b.pops) + {b.byTime[0].record};
    PopApart(b, timePoint, next);
  }

  lemma PopApart(b: Book, timePoint: int, next: int)
    requires Disciplined(b) && Distinct(b.byTime) && b.byTime != [] && b.byTime[0].key < timePoint
    requires Renews(b.byTime[0].record, timePoint, next)
    ensures
      var c := PopNext(b, timePoint, next);
      && (forall i, j :: 0 <= i < j < |c.pops| ==> Apart(c.pops[i], c.pops[j]))
      && (forall e, f :: e in c.pops && f in c.byTime ==> Apart(e, f))
  {
    var (c, first) := (PopNext(b, timePoint, next), b.byTime[0]);
    assert first in b.byTime;
    forall i, j | 0 <= i < j < |c.pops| ensures Apart(c.pops[i], c.pops[j]) {
      assert b.pops[i] in b.pops;
    }
    forall e, f | e in c.pops && f in c.byTime ensures Apart(e, f) {
      if e in b.pops {
        PopApartBefore(b, timePoint, next, e, f);
      } else {
        PopApartFirst(b, timePoint, next, f);
      }
    }
  }

  lemma PopApartBefore(b: Book, timePoint: int, next: int, e: Entry, f: Entry)
    requires Disciplined(b) && b.byTime != [] && b.byTime[0].key < timePoint
    requires Renews(b.byTime[0].record, timePoint, next)
    requires e in b.pops && f in AfterPop(b.byTime, timePoint, next)
    ensures Apart(e, f)
  {
    PopHas(b.byTime, timePoint, next, f);
    assert b.byTime[0] in b.byTime && Apart(e, b.byTime[0]);
  }

  lemma PopApartFirst(b: Book, timePoint: int, next: int, f: Entry)
    requires Distinct(b.byTime) && b.byTime != [] && b.byTime[0].key < timePoint
    requires Renews(b.byTime[0].record, timePoint, next)
    requires f in AfterPop(b.byTime, timePoint, next)
    ensures Apart(b.byTime[0], f)
  {
    PopHas(b.byTime, timePoint, next, f);
    if f in b.byTime[1..] {
      var k :| 0 <= k < |b.byTime| - 1 && b.byTime[k + 1] == f;
    }
  }

  datatype Task = Task(handle: int, clientId: string, task: string)

  /** The scheduler as it was before the clock stood still. */
  datatype Draining = Draining(byTime: seq<Entry>, pops: seq<Entry>, fired: seq<Task>, names: map<ScheduleRecord, int>)

  class Scheduler {
    var byTime: seq<Entry>
    var byHandle: map<int, ScheduleRecord>
    var scheduledTaskPushed: bool
    /** The copies pushed to the task queue. */
    var fired: seq<Task>
    ghost var added: set<ScheduleRecord>
    ghost var removed: set<ScheduleRecord>
    ghost var pops: seq<Entry>

    constructor ()
      ensures Valid() && byTime == [] && byHandle == map[] && fired == []
      ensures added == {} && removed == {} && pops == []
    {
      byTime, byHandle, scheduledTaskPushed, fired := [], map[], false, [];
      added, removed, pops := {}, {}, [];
    }

    /** Each waiting record occurs once by time, and by its own handle; every handle is its record's own. */
    ghost predicate Agreed()
      reads this`byTime, this`byHandle, this`added, added
    {
      && (forall h :: h in byHandle ==> h != 0 && byHandle[h] in added && byHandle[h].taskHandle == h)
      && (forall e :: e in byTime ==>
            e.record in added && e.record.taskHandle in byHandle && byHandle[e.record.taskHandle] == e.record)
      && Ordered(byTime) && Distinct(byTime)
    }

    ghost predicate Due(e: Entry)
      reads e.record
    {
      && e.record.WellFormed()
      && (e.record.exactTime ==> e.key == e.record.startTime)
      && (e.record.periodic ==> e.record.started)
    }

    ghost predicate Valid()
      reads this`byTime, this`byHandle, this`added, this`removed, this`pops, added
    {
      && Agreed()
      && (forall e :: e in byTime ==> e.record in added && Due(e))
      && Disciplined(TheBook())
    }

    /** The handles of the records. */
    ghost function Names(): map<ScheduleRecord, int>
      reads this`added, added
    {
      map r | r in added :: r.taskHandle
    }

    lemma {:induction false} PushedOne(s: seq<Entry>, tm: Tm)
      requires s != [] ==> s[0].record in added
      ensures s != [] ==> Pushed(s[..1], Names(), tm) == Firing(s[0].record, tm)
    {
    }

    ghost function TheBook(): Book
      reads this`byTime, this`added, this`removed, this`pops
    {
      Book(byTime, added, removed, pops)
    }

    /** Files a record by its handle, drawing another one while it clashes. */
    method FileByHandle(record: ScheduleRecord, draws: seq<int>)
      requires record.taskHandle != 0
      // Some handle that may be drawn is free.
      requires record.taskHandle !in byHandle || exists k :: 0 <= k < |draws| && HandleOf(draws[k]) !in byHandle
      modifies this`byHandle, record`taskHandle
      ensures record.taskHandle != 0 && record.taskHandle !in old(byHandle)
      ensures old(record.taskHandle) !in old(byHandle) ==> record.taskHandle == old(record.taskHandle)
      ensures byHandle == old(byHandle)[record.taskHandle := record]
    {
      var k := 0;
      while record.taskHandle in byHandle
        invariant k <= |draws| && record.taskHandle != 0 && byHandle == old(byHandle)
        invariant record.taskHandle in byHandle ==>
                    exists j :: k <= j < |draws| && HandleOf(draws[j]) !in byHandle
        invariant if k == 0 then record.taskHandle == old(record.taskHandle) else old(record.taskHandle) in byHandle
        decreases |draws| - k
      {
        record.taskHandle := HandleOf(draws[k]);
        k := k + 1;
      }
      byHandle := byHandle[record.taskHandle := record];
    }

    twostate lemma AddedValid(e: Entry)
      requires old(Valid()) && e.record !in old(added) && added == old(added) + {e.record}
      requires removed == old(removed) && pops == old(pops)
      requires byTime == Inserted(old(byTime), e) && Due(e)
      requires var h := e.record.taskHandle; h != 0 && h !in old(byHandle) && byHandle == old(byHandle)[h := e.record]
      requires forall r :: r in old(added) ==> unchanged(r)
      ensures Valid()
    {
      AddKeepsDiscipline(old(TheBook()), e);
      InsertedOrdered(old(byTime), e);
      InsertedDistinct(old(byTime), e);
      forall x | x in byTime ensures x == e || x in old(byTime) {
        InsertedHas(old(byTime), e, x);
      }
    }

    /** Files a new record by time, then by handle. */
    method AddUnlocked(record: ScheduleRecord, timePoint: int, tm: Tm, draws: seq<int>)
      returns (handle: int, ghost key: int)
      requires Valid() && tm.Valid() && record !in added && record.WellFormed() && record.taskHandle != 0
      requires record.taskHandle !in byHandle || exists k :: 0 <= k < |draws| && HandleOf(draws[k]) !in byHandle
      modifies this`byTime, this`byHandle, this`added, record
      ensures Valid() && added == old(added) + {record}
      ensures record.NextKey(old(record.started), timePoint, tm, key)
      ensures byTime == Inserted(old(byTime), Entry(key, record))
      ensures handle == record.taskHandle != 0 && handle !in old(byHandle)
      ensures old(record.taskHandle) !in old(byHandle) ==> handle == old(record.taskHandle)
      ensures byHandle == old(byHandle)[handle := record]
    {
      var tp := record.GetNext(timePoint, tm);
      key := tp;
      byTime := Inserted(byTime, Entry(tp, record));
      FileByHandle(record, draws);
      handle := record.taskHandle;
      added := added + {record};
      AddedValid(Entry(tp, record));
    }

    method AddScheduleRecord(record: ScheduleRecord, timePoint: int, tm: Tm, draws: seq<int>)
      returns (handle: int, ghost key: int)
      requires Valid() && tm.Valid() && record !in added && record.WellFormed() && record.taskHandle != 0
      requires record.taskHandle !in byHandle || exists k :: 0 <= k < |draws| && HandleOf(draws[k]) !in byHandle
      modifies this`byTime, this`byHandle, this`added, this`scheduledTaskPushed, record
      ensures Valid() && added == old(added) + {record} && scheduledTaskPushed
      ensures record.NextKey(old(record.started), timePoint, tm, key)
      ensures byTime == Inserted(old(byTime), Entry(key, record))
      ensures handle == record.taskHandle != 0 && handle !in old(byHandle)
      ensures old(record.taskHandle) !in old(byHandle) ==> handle == old(record.taskHandle)
      ensures byHandle == old(byHandle)[handle := record]
    {
      handle, key := AddUnlocked(record, timePoint, tm, draws);
      scheduledTaskPushed := true;
    }

    twostate lemma {:induction false} RemovedValid(gone: set<ScheduleRecord>)
      requires old(Valid()) && gone <= old(added) == added
      requires removed == old(removed) + gone && pops == old(pops)
      requires byTime == Without(old(byTime), gone)
      requires forall h :: h in byHandle ==> h in old(byHandle) && byHandle[h] == old(byHandle)[h]
      requires forall h :: h in old(byHandle) && old(byHandle)[h] !in gone ==> h in byHandle
      requires forall r :: r in added ==> unchanged(r)
      ensures Valid()
    {
      RemoveKeepsDiscipline(old(TheBook()), gone);
      WithoutOrdered(old(byTime), gone);
      forall e | e in byTime
        ensures e in old(byTime)
        ensures e.record.taskHandle in byHandle && byHandle[e.record.taskHandle] == e.record
      {
        WithoutIs(old(byTime), gone, e);
        assert e.record in old(added) && unchanged(e.record);
        var h := old(e.record.taskHandle);
        assert h in old(byHandle) && old(byHandle)[h] == e.record;
      }
    }

    /** Erases the entries with a handle, `gone` being the records that have it. */
    method EraseByTime(handle: int, ghost gone: set<ScheduleRecord>)
      requires forall e :: e in byTime ==> (e.record.taskHandle == handle <==> e.record in gone)
      modifies this`byTime
      ensures byTime == Without(old(byTime), gone)
    {
      ghost var was := byTime;
      ghost var k := 0;
      var it := 0;
      while it < |byTime|
        invariant k <= |was| && Erasing(was, k, gone, byTime, it)
        decreases |was| - k
      {
        EraseStep(was, k, gone, byTime, it);
        if byTime[it].record.taskHandle == handle {
          byTime := Erased(byTime, it);
        } else {
          it := it + 1;
        }
        k := k + 1;
      }
      EraseDone(was, k, gone, byTime, it);
    }

    /** Erases what has the record's handle; that is the record and no other. */
    method RemoveUnlocked(record: ScheduleRecord)
      requires Valid() && record.taskHandle in byHandle && byHandle[record.taskHandle] == record
      modifies this`byTime, this`byHandle, this`removed
      ensures Valid() && removed == old(removed) + {record}
      ensures byTime == Without(old(byTime), {record})
      ensures byHandle == old(byHandle) - {record.taskHandle}
    {
      var handle := record.taskHandle;
      EraseByTime(handle, {record});
      byHandle := byHandle - {handle};
      removed := removed + {record};
      RemovedValid({record});
    }

    /** Removes the task of a handle, for its owner only; any other call changes nothing. */
    method RemoveTask(clientId: string, hndl: int)
      requires Valid()
      modifies this`byTime, this`byHandle, this`removed
      ensures Valid()
      ensures
        if hndl in old(byHandle) && old(byHandle)[hndl].clientId == clientId then
          && removed == old(removed) + {old(byHandle)[hndl]}
          && byTime == Without(old(byTime), {old(byHandle)[hndl]})
          && byHandle == old(byHandle) - {hndl}
        else byTime == old(byTime) && byHandle == old(byHandle) && removed == old(removed)
    {
      if hndl in byHandle && clientId == byHandle[hndl].clientId {
        RemoveUnlocked(byHandle[hndl]);
      }
    }

    /** The records that one client may remove by these handles. */
    ghost function Owned(clientId: string, hndls: seq<int>): set<ScheduleRecord>
      reads this`byHandle
    {
      set h | h in hndls && h in byHandle && byHandle[h].clientId == clientId :: byHandle[h]
    }

    method RemoveTasks(clientId: string, hndls: seq<int>)
      requires Valid()
      modifies this`byTime, this`byHandle, this`removed
      ensures Valid()
      ensures removed == old(removed) + old(Owned(clientId, hndls))
      ensures byTime == Without(old(byTime), old(Owned(clientId, hndls)))
      ensures forall h :: h in byHandle <==>
                h in old(byHandle) && !(h in hndls && old(byHandle)[h].clientId == clientId)
      ensures forall h :: h in byHandle ==> byHandle[h] == old(byHandle)[h]
    {
      ghost var all := old(Owned(clientId, hndls));
      ghost var gone: set<ScheduleRecord> := {};
      WithoutNone(byTime);
      for k := 0 to |hndls|
        invariant Valid() && added == old(added) && forall r :: r in added ==> unchanged(r)
        invariant gone == old(Owned(clientId, hndls[..k])) && removed == old(removed) + gone
        invariant byTime == Without(old(byTime), gone)
        invariant forall h :: h in byHandle <==>
                    h in old(byHandle) && !(h in hndls[..k] && old(byHandle)[h].clientId == clientId)
        invariant forall h :: h in byHandle ==> byHandle[h] == old(byHandle)[h]
      {
        var hndl := hndls[k];
        assert hndls[..k + 1] == hndls[..k] + [hndl];
        ghost var r := if hndl in byHandle && byHandle[hndl].clientId == clientId then {byHandle[hndl]} else {};
        WithoutTwice(old(byTime), gone, r);
        RemoveTask(clientId, hndl);
        gone := gone + r;
        WithoutNone(byTime);
      }
      assert hndls[..|hndls|] == hndls;
    }

    /** Erases one entry of a client's, with its handle. */
    method EraseAt(it: nat)
      requires it < |byTime|
      modifies this`byTime, this`byHandle
      ensures byTime == Erased(old(byTime), it)
      ensures byHandle == old(byHandle) - {old(byTime)[it].record.taskHandle}
    {
      byHandle := byHandle - {byTime[it].record.taskHandle};
      byTime := Erased(byTime, it);
    }

    /** Erases the entries of a client and their handles, `gone` being its waiting records. */
    method EraseByClient(clientId: string, ghost gone: set<ScheduleRecord>, ghost names: map<ScheduleRecord, int>)
      requires forall e :: e in byTime ==> (e.record.clientId == clientId <==> e.record in gone)
      requires forall e :: e in byTime ==> e.record in names && names[e.record] == e.record.taskHandle
      modifies this`byTime, this`byHandle
      ensures byTime == Without(old(byTime), gone)
      ensures byHandle == old(byHandle) - Handles(old(byTime), gone, names)
    {
      ghost var was, handles := byTime, byHandle;
      ghost var k, left: set<int> := 0, {};
      var it := 0;
      while it < |byTime|
        invariant k <= |was| && Erasing(was, k, gone, byTime, it)
        invariant left == Handles(was[..k], gone, names) && byHandle == handles - left
        decreases |was| - k
      {
        EraseStep(was, k, gone, byTime, it);
        HandlesNext(was, k, gone, names);
        ghost var handle := names[was[k].record];
        if byTime[it].record.clientId == clientId {
          EraseAt(it);
          MinusTwice(handles, left, handle);
          left := left + {handle};
        } else {
          it := it + 1;
        }
        k := k + 1;
      }
      EraseDone(was, k, gone, byTime, it);
    }

    /** The handles of waiting records name no other record. */
    lemma OwnHandles(gone: set<ScheduleRecord>, names: map<ScheduleRecord, int>)
      requires Valid() && gone <= Waiting(byTime)
      requires names.Keys == Waiting(byTime) && forall r :: r in names ==> names[r] == r.taskHandle
      ensures Handles(byTime, gone, names) == set r | r in gone :: r.taskHandle
      ensures forall h :: h in byHandle && byHandle[h] !in gone ==> h !in Handles(byTime, gone, names)
    {
      forall r | r in gone ensures r.taskHandle in byHandle && byHandle[r.taskHandle] == r {
        var e :| e in byTime && e.record == r;
      }
    }

    /** Removes every waiting task of a client; those that fired their only time keep their handles. */
    method RemoveAllMyTasks(clientId: string)
      requires Valid()
      modifies this`byTime, this`byHandle, this`removed
      ensures Valid()
      ensures
        var gone := set r | r in old(Waiting(byTime)) && r.clientId == clientId;
        && removed == old(removed) + gone
        && byTime == Without(old(byTime), gone)
        && byHandle == old(byHandle) - set r | r in gone :: r.taskHandle
    {
      ghost var gone := set r | r in Waiting(byTime) && r.clientId == clientId;
      ghost var names := map r | r in Waiting(byTime) :: r.taskHandle;
      OwnHandles(gone, names);
      EraseByClient(clientId, gone, names);
      removed := removed + gone;
      RemovedValid(gone);
    }

    // The timer.

    twostate lemma PoppedValid(t: Renewal)
      requires old(Valid()) && old(byTime) != [] && old(byTime)[0].key < t.timePoint
      requires byHandle == old(byHandle) && added == old(added) && removed == old(removed)
      requires byTime == AfterPop(old(byTime), t.timePoint, t.next) && pops == old(pops) + [old(byTime)[0]]
      requires Renews(old(byTime)[0].record, t.timePoint, t.next)
      requires forall r :: r in added ==> unchanged(r)
      ensures Valid()
    {
      PopKeepsDiscipline(old(TheBook()), t.timePoint, t.next);
      PopKeepsOrder(old(byTime), t.timePoint, t.next);
      PoppedEntries(t);
    }

    twostate lemma PoppedEntries(t: Renewal)
      requires old(Valid()) && old(byTime) != []
      requires byHandle == old(byHandle) && added == old(added)
      requires byTime == AfterPop(old(byTime), t.timePoint, t.next)
      requires t.next >= t.timePoint ==> old(byTime)[0].record.Recurring()
      requires forall r :: r in added ==> unchanged(r)
      ensures forall e :: e in byTime ==>
                && e.record in added && e.record.taskHandle in byHandle && byHandle[e.record.taskHandle] == e.record
                && Due(e)
    {
      forall e | e in byTime
        ensures e.record in added && e.record.taskHandle in byHandle && byHandle[e.record.taskHandle] == e.record
        ensures Due(e)
      {
        PopHas(old(byTime), t.timePoint, t.next, e);
        var f := if e in old(byTime) then e else old(byTime)[0];
        assert f in old(byTime) && f.record == e.record;
      }
    }

    method NextWakeup(timePoint: int) returns (deadline: int)
      ensures deadline == Deadline(byTime, timePoint)
    {
      deadline := if |byTime| > 0 then byTime[0].key else timePoint + IDLE;
    }

    /** Pops the earliest record, and files it again at its next key unless that is in the past. */
    method Pop(timePoint: int, tm: Tm) returns (popped: ScheduleRecord, ghost next: int)
      requires Valid() && tm.Valid() && byTime != [] && byTime[0].key < timePoint
      modifies this`byTime, this`pops, added
      ensures Valid() && forall r :: r in added ==> unchanged(r)
      ensures popped == old(byTime)[0].record && popped.WellFormed()
      ensures TheBook() == PopNext(old(TheBook()), timePoint, next)
      ensures popped.NextKey(true, timePoint, tm, next)
    {
      var begin := byTime[0];
      assert begin in byTime && Due(begin);
      popped := begin.record;
      pops := pops + [begin];
      byTime := byTime[1..];
      var nextTimePoint := popped.GetNext(timePoint, tm);
      if nextTimePoint >= timePoint {
        byTime := Inserted(byTime, Entry(nextTimePoint, popped));
      }
      next := nextTimePoint;
      PoppedValid(Renewal(timePoint, next));
    }

    /** One critical section of the timer: pops the earliest record if its key is before `timePoint`. */
    method Expire(timePoint: int, tm: Tm) returns (popped: ScheduleRecord?, deadline: int, ghost next: int)
      requires Valid() && tm.Valid()
      modifies this`byTime, this`pops, added
      ensures Valid() && forall r :: r in added ==> unchanged(r)
      ensures popped == null <==> old(byTime) == [] || old(byTime)[0].key >= timePoint
      ensures popped == null ==> TheBook() == old(TheBook())
      ensures popped != null ==>
                && popped == old(byTime)[0].record && popped.WellFormed()
                && TheBook() == PopNext(old(TheBook()), timePoint, next)
                && popped.NextKey(true, timePoint, tm, next)
      ensures deadline == Deadline(byTime, timePoint)
    {
      popped, next := null, 0;
      if |byTime| > 0 && byTime[0].key < timePoint {
        popped, next := Pop(timePoint, tm);
      }
      deadline := NextWakeup(timePoint);
    }

    /** A critical section of the timer and what follows it: the record popped fires if its pattern matches. */
    method Look(timePoint: int, tm: Tm) returns (popped: ScheduleRecord?, deadline: int, ghost next: int)
      requires Valid() && tm.Valid()
      modifies this`byTime, this`pops, this`fired, added
      ensures Valid() && forall r :: r in added ==> unchanged(r)
      ensures popped == null <==> old(byTime) == [] || old(byTime)[0].key >= timePoint
      ensures popped == null ==> TheBook() == old(TheBook()) && fired == old(fired)
      ensures popped != null ==>
                && popped == old(byTime)[0].record
                && TheBook() == PopNext(old(TheBook()), timePoint, next)
                && popped.WellFormed() && popped.NextKey(true, timePoint, tm, next)
                && fired == old(fired) + Firing(popped, tm)
      ensures deadline == Deadline(byTime, timePoint)
    {
      popped, deadline, next := Expire(timePoint, tm);
      if popped != null {
        var matches := popped.VerifyTimePattern(tm);
        if matches {
          fired := fired + [Copy(popped)];
        }
      }
    }

    /**
     The second look of a turn, at the deadline that was found when `was` was left waiting at clock reading
     `clock`; clients may have added and removed anything since. What it pops did not wait then, and is early
     exactly when nothing that waits is overdue. A pattern is filed again as of the deadline.
     */
    method LookAgain(clock: int, ghost was: seq<Entry>, deadline: int, tm: Tm)
      returns (popped: ScheduleRecord?, ghost early: bool, ghost next: int)
      requires Valid() && tm.Valid() && Ordered(was) && deadline == Deadline(was, clock)
      modifies this`byTime, this`pops, this`fired, added
      ensures Valid() && forall r :: r in added ==> unchanged(r)
      ensures popped != null <==> exists e :: e in old(byTime) && e.key < deadline
      ensures popped != null ==>
                && old(byTime)[0] !in was && popped == old(byTime)[0].record
                && fired == old(fired) + Firing(popped, tm)
                && (early <==> old(byTime)[0].key >= clock)
                && (early <==> forall e :: e in old(byTime) ==> e.key >= clock)
      ensures popped != null && !popped.exactTime && !popped.periodic && tm.sec <= 59 ==>
                popped.WellFormed() && Entry(next, popped) in byTime && popped.Refiled(deadline, tm, next)
    {
      SecondLook(was, byTime, clock);
      early := !Overdue(byTime, clock);
      var again;
      popped, again, next := Look(deadline, tm);
      if popped != null && !popped.exactTime && !popped.periodic && tm.sec <= 59 {
        ghost var d: int :| 0 <= d <= 60 && next == deadline + d * SECOND && popped.Closest(tm, d);
        Shifts(popped.vsec, deadline, tm.sec, d);
      }
    }

    /**
     One turn of the timer's outer loop at clock reading `clock`, when no client comes between: it
     pops the earliest record if that is overdue, fires it if its pattern matches, and looks once more.
     */
    method Pass(clock: int, tm: Tm) returns (deadline: int, ghost next: int)
      requires Valid() && tm.Valid()
      modifies this`byTime, this`pops, this`fired, added
      ensures Valid() && forall r :: r in added ==> unchanged(r)
      ensures !Overdue(old(byTime), clock) ==> TheBook() == old(TheBook()) && fired == old(fired)
      ensures Overdue(old(byTime), clock) ==>
                && TheBook() == PopNext(old(TheBook()), clock, next)
                && fired == old(fired) + Firing(old(byTime)[0].record, tm)
      ensures byTime != [] ==> deadline == byTime[0].key
      ensures byTime == [] ==> deadline == clock + (if old(byTime) == [] then 10 else 20) * SECOND
    {
      ghost var turns := 0;
      deadline, next := clock, 0;
      while true
        invariant Valid() && removed == old(removed) && forall r :: r in added ==> unchanged(r)
        invariant turns == 0 ==> deadline == clock && TheBook() == old(TheBook()) && fired == old(fired)
        invariant turns <= 1
        invariant turns == 1 ==>
                    && Overdue(old(byTime), clock)
                    && TheBook() == PopNext(old(TheBook()), clock, next)
                    && fired == old(fired) + Firing(old(byTime)[0].record, tm)
                    && deadline == if byTime == [] then clock + IDLE else byTime[0].key
        decreases 1 - turns
      {
        var popped;
        ghost var key;
        popped, deadline, key := Look(deadline, tm);
        if popped == null {
          break;
        }
        next := key;
        turns := turns + 1;
      }
    }

    /** The first `m` of the entries that were overdue have been popped, and have fired if their patterns match. */
    ghost predicate Drained(d: Draining, m: nat, clock: int, tm: Tm)
      reads this`byTime, this`pops, this`fired, this`added, added
    {
      && Remaining(d.byTime, m, byTime, clock)
      && pops == d.pops + d.byTime[..m] && fired == d.fired + Pushed(d.byTime[..m], d.names, tm)
      && Names() == d.names
    }

    /** A turn while the clock stands still, `m` of the entries that were overdue having been popped. */
    method Turn(clock: int, tm: Tm, ghost d: Draining, ghost m: nat) returns (deadline: int, ghost popped: nat)
      requires Valid() && tm.Valid() && Drained(d, m, clock, tm)
      modifies this`byTime, this`pops, this`fired, added
      ensures Valid() && forall r :: r in added ==> unchanged(r)
      ensures popped == m + if m < Below(d.byTime, clock) then 1 else 0
      ensures Drained(d, popped, clock, tm)
      ensures deadline < clock <==> popped < Below(d.byTime, clock)
      ensures byTime != [] ==> deadline == byTime[0].key
      ensures byTime == [] ==> deadline == clock + (if old(byTime) == [] then 10 else 20) * SECOND
    {
      ghost var now, next := byTime, 0;
      popped := if Overdue(now, clock) then m + 1 else m;
      DrainStep(d.byTime, m, now, clock, 0);
      PushedOne(now, tm);
      deadline, next := Pass(clock, tm);
      DrainStep(d.byTime, m, now, clock, next);
      DrainStep(d.byTime, popped, byTime, clock, 0);
      Chained(d.pops, d.byTime, m, popped);
      PushedMore(d.byTime, m, popped, d.names, tm);
    }

    /** Turns of the outer loop while the clock stands still: all that is overdue is popped, and fires, in key order. */
    method Drain(clock: int, tm: Tm) returns (deadline: int)
      requires Valid() && tm.Valid()
      modifies this`byTime, this`pops, this`fired, added
      ensures Valid() && forall r :: r in added ==> unchanged(r)
      ensures pops == old(pops) + old(byTime)[..Below(old(byTime), clock)]
      ensures fired == old(fired) + old(Pushed(byTime[..Below(byTime, clock)], Names(), tm))
      ensures Below(byTime, clock) == 0
      ensures byTime != [] ==> deadline == byTime[0].key >= clock
      ensures byTime == [] ==> deadline == clock + (if old(byTime) == [] then 10 else 20) * SECOND
    {
      ghost var d, n := Draining(byTime, pops, fired, Names()), Below(byTime, clock);
      ghost var m := 0;
      deadline, m := Turn(clock, tm, d, 0);
      while deadline < clock
        invariant Valid() && forall r :: r in added ==> unchanged(r)
        invariant m <= n && Drained(d, m, clock, tm)
        invariant deadline < clock <==> m < n
        invariant byTime != [] ==> deadline == byTime[0].key
        invariant byTime == [] ==> deadline == clock + if d.byTime == [] then IDLE else 2 * IDLE
        decreases n - m
      {
        deadline, m := Turn(clock, tm, d, m);
      }
    }
  }

  predicate Overdue(s: seq<Entry>, clock: int) {
    s != [] && s[0].key < clock
  }

  function Copy(r: ScheduleRecord): Task
    reads r
  {
    Task(r.taskHandle, r.clientId, r.task)
  }

  ghost function Firing(r: ScheduleRecord, tm: Tm): seq<Task>
    reads r
  {
    if r.Fires(tm) then [Copy(r)] else []
  }

  /** The copies that popping these entries pushes to the task queue, the records having these handles. */
  ghost function Pushed(s: seq<Entry>, names: map<ScheduleRecord, int>, tm: Tm): seq<Task> {
    if s == [] then []
    else
      var r := s[|s| - 1].record;
      Pushed(s[..|s| - 1], names, tm)
      + if r in names && r.Fires(tm) then [Task(names[r], r.clientId, r.task)] else []
  }

  lemma {:induction false} PushedMore(s: seq<Entry>, k: nat, m: nat, names: map<ScheduleRecord, int>, tm: Tm)
    requires k <= m <= |s| && m <= k + 1
    ensures Pushed(s[..m], names, tm) == Pushed(s[..k], names, tm) + Pushed(s[k..m], names, tm)
  {
    if k < m {
      assert s[..m][..k] == s[..k] && s[k..m] == [s[k]];
    }
  }

  /** How many entries, from the first, have keys below the clock. */
  function Below(s: seq<Entry>, clock: int): (n: nat)
    ensures n <= |s| && (n < |s| ==> s[n].key >= clock)
    ensures forall k :: 0 <= k < n ==> s[k].key < clock
  {
    if Overdue(s, clock) then 1 + Below(s[1..], clock) else 0
  }

  lemma Chained(before: seq<Entry>, was: seq<Entry>, k: nat, m: nat)
    requires k <= m <= |was|
    ensures before + was[..k] + was[k..m] == before + was[..m]
  {
  }

  /** The first `m` of the entries that were below the clock have been popped. */
  ghost predicate Remaining(was: seq<Entry>, m: nat, now: seq<Entry>, clock: int) {
    var n := Below(was, clock);
    m <= n && Below(now, clock) == n - m && now[..n - m] == was[m..n]
  }

  /** A pop at a standing clock takes the first of the entries below it and leaves the others. */
  lemma {:induction false} DrainStep(was: seq<Entry>, m: nat, now: seq<Entry>, clock: int, next: int)
    requires Remaining(was, m, now, clock)
    ensures Overdue(now, clock) <==> m < Below(was, clock)
    ensures Overdue(now, clock) ==>
              Remaining(was, m + 1, AfterPop(now, clock, next), clock) && was[m..m + 1] == [now[0]]
  {
    if Overdue(now, clock) {
      var n := Below(was, clock);
      PopBelow(now, clock, next);
      assert now[0] == now[..n - m][0] == was[m];
      assert AfterPop(now, clock, next)[..n - m - 1] == now[1..n - m] == was[m + 1..n];
    }
  }

  lemma {:induction false} PopBelow(s: seq<Entry>, clock: int, next: int)
    requires Overdue(s, clock)
    ensures
      var n, t := Below(s, clock), AfterPop(s, clock, next);
      n > 0 && Below(t, clock) == n - 1 && t[..n - 1] == s[1..n]
  {
    var n, t := Below(s, clock), AfterPop(s, clock, next);
    assert n - 1 == Below(s[1..], clock);
    if next >= clock {
      InsertedAbove(s[1..], Entry(next, s[0].record), clock, n - 1);
    }
    assert t[..n - 1] == s[1..n];
    forall k | 0 <= k < n - 1 ensures t[k].key < clock {
      assert t[k] == t[..n - 1][k] == s[1..n][k] == s[k + 1];
    }
    assert n - 1 < |t| ==> t[n - 1].key >= clock;
    BelowIs(t, clock, n - 1);
  }

  lemma InsertedAbove(s: seq<Entry>, e: Entry, clock: int, n: nat)
    requires e.key >= clock && n <= |s| && (n < |s| ==> s[n].key >= clock)
    requires forall k :: 0 <= k < n ==> s[k].key < clock
    ensures Inserted(s, e)[..n] == s[..n]
    ensures n < |Inserted(s, e)| && Inserted(s, e)[n].key >= clock
  {
  }

  lemma {:induction false} BelowIs(s: seq<Entry>, clock: int, n: nat)
    requires n <= |s| && (n < |s| ==> s[n].key >= clock)
    requires forall k :: 0 <= k < n ==> s[k].key < clock
    ensures Below(s, clock) == n
  {
  }

  /** What the timer compares with when it looks again: the next deadline, not the clock. */
  function Deadline(s: seq<Entry>, clock: int): int {
    if s == [] then clock + IDLE else s[0].key
  }

  /**
   The timer's second look compares with a deadline found when `was` was left waiting. With `t` waiting by then,
   it pops something exactly when some key is below that deadline, which no entry of `was` has.
   */
  lemma SecondLook(was: seq<Entry>, t: seq<Entry>, clock: int)
    requires Ordered(was) && Ordered(t)
    ensures
      var deadline := Deadline(was, clock);
      && (Overdue(t, deadline) <==> exists e :: e in t && e.key < deadline)
      && (forall e :: e in was ==> e.key >= deadline)
      && (t != [] ==> (Overdue(t, clock) <==> exists e :: e in t && e.key < clock))
  {
    if t != [] {
      assert t[0] in t;
    }
  }

  lemma InsertedBeside(a: Entry, b: Entry)
    requires a.key < b.key
    ensures Inserted([], a) == [a] && Inserted([a], b) == [a, b] && Inserted([b], a) == [a, b]
  {
    assert UpperBound([a], b.key) == 1;
    assert UpperBound([b], a.key) == 0;
  }

  /** A task at a time that waits for its only firing. */
  predicate Unstarted(r: ScheduleRecord, time: int, handle: int)
    reads r
  {
    r.exactTime && !r.periodic && r.startTime == time && r.taskHandle == handle != 0
  }

  method TwoWaiting(due: ScheduleRecord, later: ScheduleRecord) returns (scheduler: Scheduler)
    requires Unstarted(due, 9, 1) && Unstarted(later, 30, 2)
    modifies due, later
    ensures fresh(scheduler) && scheduler.Valid()
    ensures scheduler.byTime == [Entry(9, due), Entry(30, later)] && scheduler.byHandle == map[1 := due, 2 := later]
    ensures scheduler.added == {due, later} && scheduler.fired == []
  {
    var tm := Tm(0, 0, 0, 1, 0, 0, 0);
    scheduler := new Scheduler();
    InsertedBeside(Entry(9, due), Entry(30, later));
    var handle;
    ghost var key;
    handle, key := scheduler.AddScheduleRecord(due, 0, tm, []);
    handle, key := scheduler.AddScheduleRecord(later, 0, tm, []);
  }

  /** The first look, at clock reading 10, pops the one that is overdue; the deadline is the other's time. */
  method FirstLook(due: ScheduleRecord, later: ScheduleRecord, tm: Tm) returns (scheduler: Scheduler, deadline: int)
    requires Unstarted(due, 9, 1) && Unstarted(later, 30, 2) && tm.Valid()
    modifies due, later
    ensures fresh(scheduler) && scheduler.Valid() && deadline == 30
    ensures scheduler.byTime == [Entry(30, later)] && scheduler.byHandle.Keys == {1, 2}
    ensures scheduler.added == {due, later} && |scheduler.fired| == 1
  {
    scheduler := TwoWaiting(due, later);
    var popped;
    ghost var next;
    popped, deadline, next := scheduler.Look(10, tm);
    assert scheduler.byHandle.Keys == {1, 2};
  }

  method AddBetween(scheduler: Scheduler, later: ScheduleRecord, early: ScheduleRecord, deadline: int, tm: Tm)
    requires scheduler.Valid() && scheduler.byTime == [Entry(30, later)] && scheduler.byHandle.Keys == {1, 2}
    requires Unstarted(early, 20, 3) && early !in scheduler.added && deadline == 30 && tm.Valid()
    modifies scheduler, scheduler.added, early
    ensures scheduler.Valid() && scheduler.fired == old(scheduler.fired) + [Copy(early)]
  {
    InsertedBeside(Entry(20, early), Entry(30, later));
    ghost var was := scheduler.byTime;
    var handle, popped;
    ghost var key, ahead, next;
    handle, key := scheduler.AddScheduleRecord(early, 10, tm, []);
    assert scheduler.byTime == [Entry(20, early), Entry(30, later)];
    popped, ahead, next := scheduler.LookAgain(10, was, deadline, tm);
  }

  /** A task for second 20 fires at clock reading 10: it is added between the two looks, the second at deadline 30. */
  method FiresEarly() returns (scheduler: Scheduler, clock: int, early: ScheduleRecord)
    ensures fresh(scheduler) && scheduler.Valid()
    ensures early.exactTime && clock == 10 && early.startTime == 20
    ensures |scheduler.fired| == 2 && scheduler.fired[1] == Copy(early)
  {
    var tm := Tm(0, 0, 0, 1, 0, 0, 0);
    clock := 10;
    var due := new ScheduleRecord.At("client", "due", 9, 1);
    var later := new ScheduleRecord.At("client", "later", 30, 2);
    var deadline;
    scheduler, deadline := FirstLook(due, later, tm);
    early := new ScheduleRecord.At("client", "soon", 20, 3);
    AddBetween(scheduler, later, early, deadline, tm);
  }
}
