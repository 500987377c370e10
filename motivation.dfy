/** The tracker `useMotivation()` builds: the streak, the last-created
    marker and the notification time, loaded once from local storage and
    written back to it by the operations that change them. Local storage is
    an in-memory map from keys to strings. */
module Motivation {
  import Decimal
  import opened Wrappers
  import opened Streak
  import opened Schedule

  const StreakKey := "creatorStreak"
  const LastKey := "lastCreatedDate"
  const TimeKey := "notificationTime"

  /** The string a day's marker is stored as: the decimal day number stands
      in for the browser's date string. The tracker compares markers as
      strings (`DateStringInjective`) and reads them back as days to compute
      the day gap (`StoredLast`, whose read-back `Decimal.ParseIntToString`
      proves exact). */
  function DateString(day: int): string {
    Decimal.IntToString(day)
  }

  /** Comparing stored marker strings is comparing days. */
  lemma DateStringInjective(a: int, b: int)
    ensures DateString(a) == DateString(b) <==> a == b
  {
    Decimal.IntToStringInjective(a, b);
  }

  /** The streak count read from storage; absent or empty reads as 0. */
  function StoredCount(m: map<string, string>): nat {
    if StreakKey in m && m[StreakKey] != "" then Decimal.ParseNat(m[StreakKey]) else 0
  }

  /** The marker read from storage; an absent or empty entry is no marker. */
  function StoredLast(m: map<string, string>): Option<int> {
    if LastKey in m && m[LastKey] != "" then Some(Decimal.ParseInt(m[LastKey])) else None
  }

  /** The notification time read from storage, "09:00" when absent or empty. */
  function StoredTime(m: map<string, string>): (t: string)
    ensures t != ""
    ensures TimeKey in m && m[TimeKey] != "" ==> t == m[TimeKey]
    ensures !(TimeKey in m && m[TimeKey] != "") ==> t == DefaultTime
  {
    if TimeKey in m && m[TimeKey] != "" then m[TimeKey] else DefaultTime
  }

  function Stored(m: map<string, string>): Streak {
    Streak(StoredCount(m), StoredLast(m))
  }

  /** What a successful mark writes: the marker, then the count. */
  function SaveMark(m: map<string, string>, s: Streak): map<string, string>
    requires s.last.Some?
  {
    m[LastKey := DateString(s.last.value)][StreakKey := Decimal.NatToString(s.count)]
  }

  /** After a successful mark, storage reads back as the new state, whatever
      it held before. */
  lemma LoadAfterMark(m: map<string, string>, s: Streak)
    requires s.last.Some?
    ensures Stored(SaveMark(m, s)) == s
    ensures StoredTime(SaveMark(m, s)) == StoredTime(m)
  {
    Decimal.ParseNatToString(s.count);
    Decimal.ParseIntToString(s.last.value);
  }

  /** After a break, storage reads back a zero count and the same marker. */
  lemma LoadAfterBreak(m: map<string, string>)
    ensures Stored(m[StreakKey := "0"]) == Stored(m).(count := 0)
    ensures StoredTime(m[StreakKey := "0"]) == StoredTime(m)
  {
  }

  class Tracker {
    var streak: nat
    var last: Option<int>
    var notificationTime: string
    var storage: map<string, string>

    /** Loading storage again would give back the streak and the marker. */
    predicate StreakSaved()
      reads this
    {
      Stored(storage) == Streak(streak, last)
    }

    /** Loading storage again would give back the notification time. */
    predicate TimeSaved()
      reads this
    {
      StoredTime(storage) == notificationTime
    }

    /** Loading storage again would give back this very tracker. */
    predicate Valid()
      reads this
    {
      StreakSaved() && TimeSaved()
    }

    function State(): Streak
      reads this
    {
      Streak(streak, last)
    }

    /** The initial load: each field from its key, with its default. */
    constructor Load(stored: map<string, string>)
      ensures Valid() && storage == stored
      ensures streak == (if StreakKey in stored && stored[StreakKey] != "" then Decimal.ParseNat(stored[StreakKey]) else 0)
      ensures last == (if LastKey in stored && stored[LastKey] != "" then Some(Decimal.ParseInt(stored[LastKey])) else None)
      ensures notificationTime == (if TimeKey in stored && stored[TimeKey] != "" then stored[TimeKey] else DefaultTime)
    {
      streak := StoredCount(stored);
      last := StoredLast(stored);
      notificationTime := StoredTime(stored);
      storage := stored;
    }

    /** `hasCreatedToday`: the stored marker string is today's. */
    function HasCreatedToday(today: int): (b: bool)
      reads this
      ensures b <==> last.Some? && DateString(last.value) == DateString(today)
    {
      DateStringInjective(if last.Some? then last.value else today, today);
      CreatedToday(State(), today)
    }

    /** `markCreated` on day `today`. */
    method MarkCreated(today: int) returns (r: MotivationResult)
      requires StreakSaved()
      modifies this`streak, this`last, this`storage
      ensures StreakSaved() && TimeSaved() == old(TimeSaved())
      ensures r == MarkReply(Mark(old(State()), today))
      ensures State() == After(old(State()), today)
      ensures r.success <==> !old(HasCreatedToday(today))
      ensures r.success ==> HasCreatedToday(today) && r.streak == Some(streak)
      ensures storage == if r.success then SaveMark(old(storage), State()) else old(storage)
    {
      if last == Some(today) {
        return MotivationResult(false, AlreadyMarkedMessage, None);
      }
      if last.Some? {
        var diffDays := today - last.value;
        if diffDays == 1 {
          streak := streak + 1;
        } else if diffDays > 1 {
          streak := 1;
        }
      } else {
        streak := 1;
      }
      last := Some(today);
      storage := storage[LastKey := DateString(today)];
      storage := storage[StreakKey := Decimal.NatToString(streak)];
      LoadAfterMark(old(storage), State());
      r := MotivationResult(true, SuccessMessage(streak), Some(streak));
    }

    /** `checkStreak` on day `today`. */
    method CheckStreak(today: int) returns (r: StreakCheck)
      requires StreakSaved()
      modifies this`streak, this`storage
      ensures StreakSaved() && TimeSaved() == old(TimeSaved())
      ensures r == CheckReply(old(State()), today)
      ensures State() == Check(old(State()), today)
      ensures last == old(last) && streak <= old(streak)
      ensures storage == if r.broken then old(storage)[StreakKey := "0"] else old(storage)
    {
      if last.Some? {
        var diffDays := today - last.value;
        if diffDays > 1 && streak > 0 {
          streak := 0;
          LoadAfterBreak(storage);
          storage := storage[StreakKey := "0"];
          return StreakCheck(true, Some(BrokenMessage));
        }
      }
      r := StreakCheck(false, None);
    }

    /** A write to the exported `notificationTime` ref, which a caller may
        write; only `scheduleNotification` persists it. */
    method SetNotificationTime(time: string)
      modifies this`notificationTime
      ensures notificationTime == time
    {
      notificationTime := time;
    }

    /** The storage write and the timer delay of `scheduleNotification`, at
        `now` milliseconds after local midnight. */
    method ScheduleNotification(now: nat) returns (delay: Option<int>)
      requires StreakSaved() && now < DayMs
      modifies this`storage
      ensures StreakSaved()
      // a non-empty time is now what storage reads back; "" reads back as "09:00"
      ensures StoredTime(storage) == if notificationTime == "" then DefaultTime else notificationTime
      ensures notificationTime != "" ==> Valid()
      ensures storage == old(storage)[TimeKey := notificationTime]
      ensures delay == DelayFor(notificationTime, now)
    {
      var parsed := ParseTime(notificationTime);
      storage := storage[TimeKey := notificationTime];
      assert Stored(storage) == Stored(old(storage));
      delay := None;
      if parsed.Some? {
        var (hours, minutes) := parsed.value;
        if hours < 24 && minutes < 60 {
          var scheduled := TimeOfDay(hours, minutes);
          if scheduled <= now {
            scheduled := scheduled + DayMs;
          }
          delay := Some(scheduled - now);
        }
      }
    }
  }

  /** The scenarios a user goes through, as a caller sees them through the
      contracts above. */
  method Scenarios()
  {
    var t := new Tracker.Load(map[]);
    assert t.State() == Fresh;
    var r := t.MarkCreated(100);
    assert r.success && t.streak == 1 && t.last == Some(100);
    r := t.MarkCreated(100);
    assert !r.success && t.streak == 1;
    r := t.MarkCreated(101);
    assert t.streak == 2;
    var c := t.CheckStreak(102);
    assert !c.broken && t.streak == 2;
    c := t.CheckStreak(104);
    assert c.broken && t.streak == 0 && t.last == Some(101);
    c := t.CheckStreak(104);
    assert !c.broken;
    r := t.MarkCreated(104);
    assert t.streak == 1;
    var u := new Tracker.Load(t.storage);
    assert u.State() == t.State() && u.notificationTime == DefaultTime;
    u.SetNotificationTime(FormatTime(20, 30));
    var delay := u.ScheduleNotification(0);
    DelayForFormatted(20, 30, 0);
    assert delay == Some(NextDelay(0, 20, 30)) && delay.value == TimeOfDay(20, 30);
    var w := new Tracker.Load(u.storage);
    assert w.notificationTime == FormatTime(20, 30) && w.State() == t.State();
  }
}
