/** The creation streak: its state, the two transitions `markCreated` and
    `checkStreak` apply to it, the replies they give, and what a sequence of
    marks adds up to. Calendar days are integer day numbers, so the day gap
    between two markers is a plain subtraction. */
module Streak {
  import Decimal
  import opened Wrappers

  /** The streak count and the day of the last marked creation, if any. */
  datatype Streak = Streak(count: nat, last: Option<int>)

  /** What `markCreated` returns. */
  datatype MotivationResult = MotivationResult(success: bool, message: string, streak: Option<nat>)

  /** What `checkStreak` returns. */
  datatype StreakCheck = StreakCheck(broken: bool, message: Option<string>)

  const AlreadyMarkedMessage := "Tu as déjà marqué ta création aujourd'hui ! 🎉"
  const BrokenMessage := "⚠️ Ta streak a été cassée. Recommence aujourd'hui !"
  const SuccessPrefix := "🎉 Bravo ! Streak de "

  /** The state of a tracker that finds nothing in storage. */
  const Fresh := Streak(0, None)

  /** There is no streak without a marked day. */
  predicate Consistent(s: Streak) {
    s.last.None? ==> s.count == 0
  }

  /** `hasCreatedToday`: the last marker is today. */
  predicate CreatedToday(s: Streak, today: int) {
    s.last == Some(today)
  }

  /** `markCreated` on day `today`: None when today is already marked,
      otherwise the new state. */
  function Mark(s: Streak, today: int): (o: Option<Streak>)
    ensures o.None? <==> CreatedToday(s, today)
    ensures o.Some? ==> CreatedToday(o.value, today) && Consistent(o.value)
    // a first mark, or a mark after a gap of more than a day, starts a new streak
    ensures (s.last.None? || today - s.last.value > 1) ==> o == Some(Streak(1, Some(today)))
    // a mark on the day after the last one extends the streak by one
    ensures s.last == Some(today - 1) ==> o == Some(Streak(s.count + 1, Some(today)))
    // a mark on a day before the last one (the clock moved back) keeps the count
    ensures s.last.Some? && today < s.last.value ==> o == Some(Streak(s.count, Some(today)))
  {
    if s.last == Some(today) then None
    else
      var count :=
        match s.last
        case None => 1
        case Some(last) =>
          var diffDays := today - last;
          if diffDays == 1 then s.count + 1
          else if diffDays > 1 then 1
          else s.count;
      Some(Streak(count, Some(today)))
  }

  /** The state after a mark, refused or not. */
  function After(s: Streak, today: int): Streak {
    match Mark(s, today)
    case None => s
    case Some(next) => next
  }

  /** The message of a successful mark: the count in decimal, then "jour",
      plural beyond one. */
  function SuccessMessage(count: nat): string {
    SuccessPrefix + Decimal.NatToString(count) + " jour" + (if count > 1 then "s" else "") + " !"
  }

  function MarkReply(o: Option<Streak>): (r: MotivationResult)
    ensures r.success <==> o.Some?
    ensures r.success ==> r.streak == Some(o.value.count) && r.message == SuccessMessage(o.value.count)
    ensures !r.success ==> r.streak.None? && r.message == AlreadyMarkedMessage
  {
    match o
    case None => MotivationResult(false, AlreadyMarkedMessage, None)
    case Some(next) => MotivationResult(true, SuccessMessage(next.count), Some(next.count))
  }

  predicate EndsWith(s: string, suffix: string) {
    |suffix| <= |s| && s[|s| - |suffix|..] == suffix
  }

  /** The message says "jours" exactly when the streak is longer than one day,
      and carries the count right after its fixed opening. */
  lemma SuccessMessagePlural(count: nat)
    ensures EndsWith(SuccessMessage(count), "jours !") <==> count > 1
    ensures EndsWith(SuccessMessage(count), " jour !") <==> count <= 1
    ensures var m := SuccessMessage(count);
      var digits := Decimal.NatToString(count);
      |SuccessPrefix| + |digits| <= |m| &&
      Decimal.ParseNat(m[|SuccessPrefix|..|SuccessPrefix| + |digits|]) == count
  {
    var m := SuccessMessage(count);
    var digits := Decimal.NatToString(count);
    assert m[|SuccessPrefix|..|SuccessPrefix| + |digits|] == digits;
    Decimal.ParseNatToString(count);
    if count > 1 {
      assert m[|m| - 7..] == "jours !";
      assert m[|m| - 7..][0] == 'j';
    } else {
      assert m[|m| - 7..] == " jour !";
      assert m[|m| - 7..][0] == ' ';
    }
  }

  /** The gap condition under which `checkStreak` resets the streak. */
  predicate Breaks(s: Streak, today: int) {
    s.last.Some? && today - s.last.value > 1 && s.count > 0
  }

  /** `checkStreak` on day `today`: a streak whose last mark is more than a
      day old is zeroed; the marker is never touched. */
  function Check(s: Streak, today: int): (c: Streak)
    ensures c.last == s.last
    ensures c.count <= s.count
    // the streak survives exactly when its last mark was at most a day ago
    ensures c.count == if s.last.Some? && today - s.last.value > 1 then 0 else s.count
    ensures c != s <==> Breaks(s, today)
    // checking again on the same day finds nothing to break
    ensures !Breaks(c, today)
    ensures Consistent(s) ==> Consistent(c)
  {
    if Breaks(s, today) then s.(count := 0) else s
  }

  function CheckReply(s: Streak, today: int): (r: StreakCheck)
    ensures r.broken <==> Check(s, today).count < s.count
    ensures r.broken <==> r.message == Some(BrokenMessage)
    ensures !r.broken ==> r.message.None?
  {
    if Breaks(s, today) then StreakCheck(true, Some(BrokenMessage)) else StreakCheck(false, None)
  }

  /** Marks on the given days, one after the other, from state `s`. */
  function Replay(s: Streak, days: seq<int>): Streak
    decreases |days|
  {
    if days == [] then s else After(Replay(s, days[..|days| - 1]), days[|days| - 1])
  }

  /** One mark per calendar day, in calendar order. */
  predicate Increasing(days: seq<int>) {
    forall i :: 0 < i < |days| ==> days[i - 1] < days[i]
  }

  /** Marks in calendar order, possibly several on one day. */
  predicate NonDecreasing(days: seq<int>) {
    forall i :: 0 < i < |days| ==> days[i - 1] <= days[i]
  }

  /** The days with each repeat of the day before it dropped. */
  function Collapse(days: seq<int>): (r: seq<int>)
    ensures |r| <= |days|
    ensures |days| > 0 ==> |r| > 0 && r[|r| - 1] == days[|days| - 1]
    ensures NonDecreasing(days) ==> Increasing(r)
    // only repeats are dropped: every marked day is kept
    ensures forall x :: x in r <==> x in days
    decreases |days|
  {
    if |days| <= 1 then days
    else
      var prefix := days[..|days| - 1];
      assert days == prefix + [days[|days| - 1]];
      assert days[|days| - 2] in prefix;
      var init := Collapse(prefix);
      if days[|days| - 1] == days[|days| - 2] then init else init + [days[|days| - 1]]
  }

  /** After at least one mark, refused or not, the marker is the last day. */
  lemma {:induction false} ReplayLast(s: Streak, days: seq<int>)
    requires |days| > 0
    ensures Replay(s, days).last == Some(days[|days| - 1])
  {
  }

  /** A mark repeated on the same day changes nothing, so only the distinct
      days count. */
  lemma {:induction false} ReplayCollapse(s: Streak, days: seq<int>)
    ensures Replay(s, days) == Replay(s, Collapse(days))
    decreases |days|
  {
    var n := |days|;
    if n > 1 {
      var init := days[..n - 1];
      ReplayCollapse(s, init);
      ReplayLast(s, init);
      var c := Collapse(init);
      if days[n - 1] != days[n - 2] {
        assert (c + [days[n - 1]])[..|c|] == c;
      }
    }
  }

  /** The last `k` days are consecutive calendar days. */
  predicate ConsecutiveTail(days: seq<int>, k: nat)
    requires k <= |days|
  {
    forall i :: |days| - k < i < |days| ==> days[i] == days[i - 1] + 1
  }

  /** On distinct days in calendar order, the count is the length of the
      longest run of consecutive days that ends with the last mark. */
  lemma {:induction false} RunOfDistinctDays(days: seq<int>)
    requires |days| > 0 && Increasing(days)
    ensures var s := Replay(Fresh, days);
      1 <= s.count <= |days| &&
      ConsecutiveTail(days, s.count) &&
      (s.count < |days| ==> days[|days| - s.count] != days[|days| - s.count - 1] + 1)
    decreases |days|
  {
    var n := |days|;
    var init := days[..n - 1];
    if n == 1 {
      assert Replay(Fresh, init) == Fresh;
    } else {
      assert Increasing(init);
      RunOfDistinctDays(init);
      ReplayLast(Fresh, init);
      var prev := Replay(Fresh, init);
      var s := Replay(Fresh, days);
      if days[n - 1] == days[n - 2] + 1 {
        assert s.count == prev.count + 1;
        forall i | n - s.count < i < n ensures days[i] == days[i - 1] + 1 {
          if i < n - 1 {
            assert init[i] == init[i - 1] + 1;
          }
        }
      } else {
        assert s.count == 1;
      }
    }
  }

  /** The streak counts consecutive calendar days: after marks in calendar
      order (repeats on one day refused), the count is the length of the
      longest run of consecutive marked days that ends with the last mark,
      and the marker is that day. */
  lemma {:induction false} ReplayCountsRun(days: seq<int>)
    requires |days| > 0 && NonDecreasing(days)
    ensures var s := Replay(Fresh, days);
      var marked := Collapse(days);
      s.last == Some(days[|days| - 1]) &&
      1 <= s.count <= |marked| &&
      ConsecutiveTail(marked, s.count) &&
      (s.count < |marked| ==> marked[|marked| - s.count] != marked[|marked| - s.count - 1] + 1)
  {
    ReplayLast(Fresh, days);
    ReplayCollapse(Fresh, days);
    RunOfDistinctDays(Collapse(days));
  }

  /** What a streak check shows after a run of marks: the run survives while
      the last mark is at most a day old, and is zero afterwards. */
  lemma CheckAfterReplay(days: seq<int>, today: int)
    requires |days| > 0 && NonDecreasing(days)
    ensures var s := Replay(Fresh, days);
      Check(s, today).count == if today - days[|days| - 1] <= 1 then s.count else 0
  {
    ReplayLast(Fresh, days);
  }

  /** A user action: a creation marked, or a streak check, on a given day. */
  datatype Action = MarkOn(day: int) | CheckOn(day: int)

  function Apply(s: Streak, a: Action): Streak {
    match a
    case MarkOn(day) => After(s, day)
    case CheckOn(day) => Check(s, day)
  }

  /** The actions applied one after the other, from state `s`. */
  function Run(s: Streak, actions: seq<Action>): Streak
    decreases |actions|
  {
    if actions == [] then s else Apply(Run(s, actions[..|actions| - 1]), actions[|actions| - 1])
  }

  /** Marks and checks in any order, on any days, never leave a streak
      without a marked day. */
  lemma {:induction false} RunConsistent(s: Streak, actions: seq<Action>)
    requires Consistent(s)
    ensures Consistent(Run(s, actions))
    decreases |actions|
  {
    if actions != [] {
      RunConsistent(s, actions[..|actions| - 1]);
    }
  }
}
