/** Time patterns as they stand in a configuration: seven words, or a nickname for them. */
module Patterns {
  import opened Cron
  import opened Decimal
  import opened Options
  import Scheduler

  // The words of a text, separated by white space.

  function WordEnd(s: string, i: nat): (j: nat)
    requires i <= |s|
    ensures i <= j <= |s|
    decreases |s| - i
  {
    if i < |s| && !Space(s[i]) then WordEnd(s, i + 1) else i
  }

  function Words(s: string): seq<string>
    decreases |s|
  {
    var i := SkipSpace(s, 0);
    var j := WordEnd(s, i);
    if i == j then [] else [s[i..j]] + Words(s[j..])
  }

  ghost predicate IsWord(w: string) {
    w != [] && forall k :: 0 <= k < |w| ==> !Space(w[k])
  }

  function Spaced(words: seq<string>): string {
    if words == [] then "" else " " + words[0] + Spaced(words[1..])
  }

  lemma {:induction false} WordEndIs(before: string, w: string, rest: string, k: nat)
    requires IsWord(w) && k <= |w| && (rest == [] || Space(rest[0]))
    ensures WordEnd(before + w + rest, |before| + k) == |before| + |w|
    decreases |w| - k
  {
    var s := before + w + rest;
    if k < |w| {
      assert s[|before| + k] == w[k];
      WordEndIs(before, w, rest, k + 1);
    } else if rest != [] {
      assert s[|before| + k] == rest[0];
    }
  }

  /** Words that are put together with spaces are found again. */
  lemma {:induction false} WordsSpaced(words: seq<string>)
    requires forall k :: 0 <= k < |words| ==> IsWord(words[k])
    ensures Words(Spaced(words)) == words
    decreases |words|
  {
    if words != [] {
      var (w, rest) := (words[0], Spaced(words[1..]));
      var s := " " + w + rest;
      assert s[0] == ' ' && s[1] == w[0];
      assert SkipSpace(s, 0) == SkipSpace(s, 1) == 1;
      WordEndIs(" ", w, rest, 0);
      assert s[1..|w| + 1] == w && s[|w| + 1..] == rest;
      WordsSpaced(words[1..]);
    }
  }

  // Seven items.

  /** The values of each field, in the order of the pattern, or why the first bad item is refused. */
  datatype Spec =
    | Spec(sec: seq<int>, min: seq<int>, hour: seq<int>, mday: seq<int>, mon: seq<int>, year: seq<int>, wday: seq<int>)
    | NoSpec(why: Refusal)

  /** A word that is missing is a star. */
  function Word(words: seq<string>, k: nat): string {
    if k < |words| then words[k] else "*"
  }

  function Field(words: seq<string>, k: nat): Parsed {
    if k == 0 then Item(Word(words, 0), 0, 59, 0)
    else if k == 1 then Item(Word(words, 1), 0, 59, 0)
    else if k == 2 then Item(Word(words, 2), 0, 23, 0)
    else if k == 3 then Item(Word(words, 3), 1, 31, 0)
    else if k == 4 then Item(Word(words, 4), 1, 12, -1)
    else if k == 5 then Item(Word(words, 5), 0, 9000, 0)
    else Item(Word(words, 6), 0, 6, 0)
  }

  /** The first of the fields from `k` on that is refused. */
  function FirstBad(words: seq<string>, k: nat): (r: nat)
    requires k <= 7
    ensures k <= r <= 7 && (r < 7 ==> Field(words, r).Refused?)
    ensures forall j :: k <= j < r ==> Field(words, j).Items?
    decreases 7 - k
  {
    if k == 7 || Field(words, k).Refused? then k else FirstBad(words, k + 1)
  }

  function Parse(words: seq<string>): Spec {
    var bad := FirstBad(words, 0);
    if bad < 7 then NoSpec(Field(words, bad).why)
    else
      Spec(Field(words, 0).values, Field(words, 1).values, Field(words, 2).values, Field(words, 3).values,
           Field(words, 4).values, Field(words, 5).values, Field(words, 6).values)
  }

  /** A pattern may leave out its last words, which are then stars. */
  lemma MissingIsStar(words: seq<string>)
    requires |words| < 7
    ensures Parse(words) == Parse(words + ["*"])
  {
    var more := words + ["*"];
    assert forall k :: 0 <= k < 7 ==> Field(words, k) == Field(more, k);
    FirstBadAlike(words, more, 0);
  }

  lemma {:induction false} FirstBadAlike(words: seq<string>, more: seq<string>, k: nat)
    requires k <= 7 && forall j :: 0 <= j < 7 ==> Field(words, j) == Field(more, j)
    ensures FirstBad(words, k) == FirstBad(more, k)
    decreases 7 - k
  {
    if k < 7 {
      FirstBadAlike(words, more, k + 1);
    }
  }

  /** The seven calls of the constructor, the first exception ending it. */
  method ParsePattern(words: seq<string>) returns (fields: Spec)
    ensures fields == Parse(words)
    ensures fields.Spec? ==> Seconds(fields.sec)
  {
    ItemSeconds(Word(words, 0));
    var sec := ParseItem(Word(words, 0), 0, 59, 0);
    if sec.Refused? {
      return NoSpec(sec.why);
    }
    var mnt := ParseItem(Word(words, 1), 0, 59, 0);
    if mnt.Refused? {
      return NoSpec(mnt.why);
    }
    var hrs := ParseItem(Word(words, 2), 0, 23, 0);
    if hrs.Refused? {
      return NoSpec(hrs.why);
    }
    var day := ParseItem(Word(words, 3), 1, 31, 0);
    if day.Refused? {
      return NoSpec(day.why);
    }
    var mon := ParseItem(Word(words, 4), 1, 12, -1);
    if mon.Refused? {
      return NoSpec(mon.why);
    }
    var yer := ParseItem(Word(words, 5), 0, 9000, 0);
    if yer.Refused? {
      return NoSpec(yer.why);
    }
    var dow := ParseItem(Word(words, 6), 0, 6, 0);
    if dow.Refused? {
      return NoSpec(dow.why);
    }
    return Spec(sec.values, mnt.values, hrs.values, day.values, mon.values, yer.values, dow.values);
  }

  // What patterns of stars and numbers mean.

  datatype Choice = Any | Just(n: nat)

  function Written(c: Choice): string {
    if c.Any? then "*" else Print(c.n)
  }

  predicate Ranges(c: Choice, mnm: nat, mxm: nat) {
    c.Any? || mnm <= c.n <= mxm
  }

  predicate Meets(c: Choice, value: int) {
    c.Any? || c.n == value
  }

  lemma ChoiceFits(c: Choice, mnm: nat, mxm: nat, offset: int, cval: int)
    requires Ranges(c, mnm, mxm) && mxm <= INT_MAX && mnm + offset >= 0
    ensures
      var r := Item(Written(c), mnm, mxm, offset);
      r.Items? && (Fits(cval, r.values) <==> Meets(c, cval - offset)) && r.values != []
  {
    if c.Any? {
      StarFits(mnm, mxm, offset, cval);
    } else {
      NumeralFits(c.n, mnm, mxm, offset, cval);
      NumeralFits(c.n, mnm, mxm, offset, c.n + offset + 1);
    }
  }

  /** A star for the seconds is second 0. */
  lemma ChoiceSeconds(c: Choice, sec: nat)
    requires Ranges(c, 0, 59)
    ensures
      var r := Item(Written(c), 0, 59, 0);
      r.Items? && Seconds(r.values) && (Allows(r.values, sec) <==> sec == if c.Any? then 0 else c.n)
  {
    ItemSeconds(Written(c));
    if c.Just? {
      NumeralFits(c.n, 0, 59, 0, sec);
    }
  }

  lemma {:induction false} NoneBad(words: seq<string>, k: nat)
    requires k <= 7 && forall j :: 0 <= j < 7 ==> Field(words, j).Items?
    ensures FirstBad(words, k) == 7
    decreases 7 - k
  {
    if k < 7 {
      NoneBad(words, k + 1);
    }
  }

  lemma ChoiceAccepted(c: Choice, mnm: nat, mxm: nat, offset: int)
    requires c.Just? ==> c.n <= INT_MAX
    ensures Item(Written(c), mnm, mxm, offset).Items? <==> Ranges(c, mnm, mxm)
  {
    if c.Any? {
      StarFits(mnm, mxm, offset, 0);
    } else {
      NumeralFits(c.n, mnm, mxm, offset, 0);
    }
  }

  /** A pattern of stars and numbers is accepted exactly when each number is in its field's range. */
  lemma PatternAccepted(cs: seq<Choice>)
    requires |cs| == 7 && forall k :: 0 <= k < 7 && cs[k].Just? ==> cs[k].n <= INT_MAX
    ensures
      Parse(seq(7, k requires 0 <= k < 7 => Written(cs[k]))).Spec? <==>
        && Ranges(cs[0], 0, 59) && Ranges(cs[1], 0, 59) && Ranges(cs[2], 0, 23) && Ranges(cs[3], 1, 31)
        && Ranges(cs[4], 1, 12) && Ranges(cs[5], 0, 9000) && Ranges(cs[6], 0, 6)
  {
    var words := seq(7, k requires 0 <= k < 7 => Written(cs[k]));
    ChoiceAccepted(cs[0], 0, 59, 0);
    ChoiceAccepted(cs[1], 0, 59, 0);
    ChoiceAccepted(cs[2], 0, 23, 0);
    ChoiceAccepted(cs[3], 1, 31, 0);
    ChoiceAccepted(cs[4], 1, 12, -1);
    ChoiceAccepted(cs[5], 0, 9000, 0);
    ChoiceAccepted(cs[6], 0, 6, 0);
    if forall j :: 0 <= j < 7 ==> Field(words, j).Items? {
      NoneBad(words, 0);
    }
  }

  /** Each field fits what its word says; months count from 0 on the clock. A star for the seconds is second 0. */
  lemma PatternFits(sec: Choice, min: Choice, hour: Choice, mday: Choice, mon: Choice, year: Choice, wday: Choice,
      c: nat)
    requires Ranges(sec, 0, 59) && Ranges(min, 0, 59) && Ranges(hour, 0, 23) && Ranges(mday, 1, 31)
    requires Ranges(mon, 1, 12) && Ranges(year, 0, 9000) && Ranges(wday, 0, 6)
    ensures
      var p := Parse([Written(sec), Written(min), Written(hour), Written(mday), Written(mon), Written(year),
                      Written(wday)]);
      && p.Spec? && Seconds(p.sec)
      && (Allows(p.sec, c) <==> c == if sec.Any? then 0 else sec.n)
      && (Fits(c, p.min) <==> Meets(min, c)) && (Fits(c, p.hour) <==> Meets(hour, c))
      && (Fits(c, p.mday) <==> Meets(mday, c)) && (Fits(c, p.mon) <==> Meets(mon, c + 1))
      && (Fits(c, p.year) <==> Meets(year, c)) && (Fits(c, p.wday) <==> Meets(wday, c))
  {
    var words := [Written(sec), Written(min), Written(hour), Written(mday), Written(mon), Written(year), Written(wday)];
    ChoiceSeconds(sec, c);
    ChoiceFits(min, 0, 59, 0, c);
    ChoiceFits(hour, 0, 23, 0, c);
    ChoiceFits(mday, 1, 31, 0, c);
    ChoiceFits(mon, 1, 12, -1, c);
    ChoiceFits(year, 0, 9000, 0, c);
    ChoiceFits(wday, 0, 6, 0, c);
    NoneBad(words, 0);
  }

  // Nicknames.

  /** The words of the pattern that a nickname stands for. */
  function Nickname(name: string): Option<seq<string>> {
    if name == "@reboot" then Some([])
    else if name == "@yearly" || name == "@annually" then Some(["0", "0", "0", "0", "1", "1", "*"])
    else if name == "@monthly" then Some(["0", "0", "0", "0", "1", "*", "*"])
    else if name == "@weekly" then Some(["0", "0", "0", "*", "*", "*", "0"])
    else if name == "@daily" then Some(["0", "0", "0", "*", "*", "*", "*"])
    else if name == "@hourly" then Some(["0", "0", "*", "*", "*", "*", "*"])
    else if name == "@minutely" then Some(["0", "*", "*", "*", "*", "*", "*"])
    else None
  }

  /** What a time is: a pattern, the present time, or no time at all. */
  datatype Time = Pattern(fields: Spec) | Now | BadName

  function TimeOf(timeSpec: string): Time {
    if timeSpec == "" then BadName
    else if timeSpec[0] != '@' then Pattern(Parse(Words(timeSpec)))
    else
      match Nickname(timeSpec)
      case None => BadName
      case Some(words) => if words == [] then Now else Pattern(Parse(words))
  }

  /** No time is what is empty, or starts like a nickname and is none of the eight. */
  lemma NoTime(timeSpec: string)
    ensures TimeOf(timeSpec).BadName? <==>
              || timeSpec == ""
              || (timeSpec[0] == '@'
                  && timeSpec !in ["@reboot", "@yearly", "@annually", "@monthly",
                                   "@weekly", "@daily", "@hourly", "@minutely"])
    ensures TimeOf(timeSpec).Now? <==> timeSpec == "@reboot"
  {
  }

  /** Of the seven nicknames with a pattern three are refused: the day of a month is never 0. */
  lemma NicknamesRefused()
    ensures TimeOf("@yearly") == TimeOf("@annually") == TimeOf("@monthly") == Pattern(NoSpec(BadValue))
  {
    DayZero(["0", "0", "0", "0", "1", "1", "*"]);
    DayZero(["0", "0", "0", "0", "1", "*", "*"]);
  }

  lemma DayZero(words: seq<string>)
    requires |words| == 7 && words[..4] == ["0", "0", "0", "0"]
    ensures Parse(words) == NoSpec(BadValue)
  {
    assert Print(0) == "0";
    assert words[0] == words[..4][0] && words[1] == words[..4][1];
    assert words[2] == words[..4][2] && words[3] == words[..4][3];
    NumeralFits(0, 0, 59, 0, 0);
    NumeralFits(0, 0, 23, 0, 0);
    NumeralFits(0, 1, 31, 0, 0);
    assert FirstBad(words, 0) == FirstBad(words, 1) == FirstBad(words, 2) == FirstBad(words, 3) == 3;
  }

  /** A pattern with second 0 only, and these for the minute, the hour and the day of the week. */
  ghost predicate AtStart(t: Time, min: Choice, hour: Choice, wday: Choice, c: nat) {
    && t.Pattern? && t.fields.Spec? && Seconds(t.fields.sec) && (Allows(t.fields.sec, c) <==> c == 0)
    && (Fits(c, t.fields.min) <==> Meets(min, c)) && (Fits(c, t.fields.hour) <==> Meets(hour, c))
    && Fits(c, t.fields.mday) && Fits(c, t.fields.mon) && Fits(c, t.fields.year)
    && (Fits(c, t.fields.wday) <==> Meets(wday, c))
  }

  lemma ShortNicknames(c: nat)
    ensures AtStart(TimeOf("@minutely"), Any, Any, Any, c) && AtStart(TimeOf("@hourly"), Just(0), Any, Any, c)
  {
    assert Print(0) == "0";
    PatternFits(Just(0), Any, Any, Any, Any, Any, Any, c);
    PatternFits(Just(0), Just(0), Any, Any, Any, Any, Any, c);
  }

  lemma LongNicknames(c: nat)
    ensures AtStart(TimeOf("@daily"), Just(0), Just(0), Any, c)
    ensures AtStart(TimeOf("@weekly"), Just(0), Just(0), Just(0), c)
  {
    assert Print(0) == "0";
    PatternFits(Just(0), Just(0), Just(0), Any, Any, Any, Any, c);
    PatternFits(Just(0), Just(0), Just(0), Any, Any, Any, Just(0), c);
  }

  /** The others name the second 0, and the minute, hour and day of the week that they say. */
  lemma NicknamesFit(c: nat)
    ensures
      && AtStart(TimeOf("@minutely"), Any, Any, Any, c)
      && AtStart(TimeOf("@hourly"), Just(0), Any, Any, c)
      && AtStart(TimeOf("@daily"), Just(0), Just(0), Any, c)
      && AtStart(TimeOf("@weekly"), Just(0), Just(0), Just(0), c)
    ensures TimeOf("@reboot") == Now
  {
    ShortNicknames(c);
    LongNicknames(c);
  }

  /** A clock counts its years from 1900: a year in a pattern is met that much later. */
  lemma {:induction false} YearSince1900(y: nat, calendar: nat)
    requires y <= 9000
    ensures
      var r := Field(["*", "*", "*", "*", "*", Print(y)], 5);
      r.Items? && (Fits(calendar - 1900, r.values) <==> calendar == y + 1900)
  {
    NumeralFits(y, 0, 9000, 0, calendar - 1900);
  }

  /** The record that a configuration's time makes; none where the source throws. */
  method RecordOf(timeSpec: string, clientId: string, task: string, now: int, val: int)
    returns (r: Scheduler.ScheduleRecord?)
    ensures r == null <==> TimeOf(timeSpec).BadName? || (TimeOf(timeSpec).Pattern? && TimeOf(timeSpec).fields.NoSpec?)
    ensures r != null ==> fresh(r) && r.clientId == clientId && r.task == task && !r.periodic && !r.started
    ensures r != null && TimeOf(timeSpec).Now? ==> r.exactTime && r.startTime == now
    ensures r != null && TimeOf(timeSpec).Pattern? ==>
              var s := TimeOf(timeSpec).fields;
              && !r.exactTime && r.vsec == s.sec && r.vmin == s.min && r.vhour == s.hour
              && r.vmday == s.mday && r.vmon == s.mon && r.vyear == s.year && r.vwday == s.wday
  {
    if TimeOf(timeSpec).BadName? {
      return null;
    }
    if TimeOf(timeSpec).Now? {
      r := new Scheduler.ScheduleRecord.At(clientId, task, now, val);
      return;
    }
    var words := if timeSpec[0] == '@' then Nickname(timeSpec).value else Words(timeSpec);
    var fields := ParsePattern(words);
    if fields.NoSpec? {
      return null;
    }
    r := new Scheduler.ScheduleRecord.Pattern(clientId, task, fields.sec, fields.min, fields.hour, fields.mday,
                                              fields.mon, fields.year, fields.wday, val);
  }

  /** A record made of seven stars and numbers fires exactly when the clock shows what they say. */
  lemma WrittenFires(r: Scheduler.ScheduleRecord, min: Choice, hour: Choice, mday: Choice, mon: Choice, year: Choice,
      wday: Choice, tm: Scheduler.Tm)
    requires Ranges(min, 0, 59) && Ranges(hour, 0, 23) && Ranges(mday, 1, 31)
    requires Ranges(mon, 1, 12) && Ranges(year, 0, 9000) && Ranges(wday, 0, 6)
    requires tm.min >= 0 && tm.hour >= 0 && tm.mday >= 0 && tm.mon >= 0 && tm.year >= 0 && tm.wday >= 0
    requires
      var p := Parse([Written(Any), Written(min), Written(hour), Written(mday), Written(mon), Written(year),
                      Written(wday)]);
      && p.Spec? && !r.exactTime && !r.periodic && r.vmin == p.min && r.vhour == p.hour
      && r.vmday == p.mday && r.vmon == p.mon && r.vyear == p.year && r.vwday == p.wday
    ensures r.Fires(tm) <==>
              && Meets(min, tm.min) && Meets(hour, tm.hour) && Meets(mday, tm.mday)
              && Meets(mon, tm.mon + 1) && Meets(year, tm.year) && Meets(wday, tm.wday)
  {
    PatternFits(Any, min, hour, mday, mon, year, wday, tm.min);
    PatternFits(Any, min, hour, mday, mon, year, wday, tm.hour);
    PatternFits(Any, min, hour, mday, mon, year, wday, tm.mday);
    PatternFits(Any, min, hour, mday, mon, year, wday, tm.mon);
    PatternFits(Any, min, hour, mday, mon, year, wday, tm.year);
    PatternFits(Any, min, hour, mday, mon, year, wday, tm.wday);
  }
}
