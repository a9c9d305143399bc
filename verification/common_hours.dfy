/**
 * `find_common_hours` (login.py, lines 64-77): converts every registered
 * user's free time to a UTC range of hours of the day, then reports the window
 * from the latest start to the earliest end when that window is not empty.
 */
module CommonHours {
  import opened Results
  import opened Text
  import opened FreeTimeLabel
  import opened UtcConversion

  /** A registered user as the computation sees them: the stored label and the zone's hour offset. */
  datatype User = User(freeTime: string, offset: int)

  /** The outcome of the search; the source renders it as a sentence. */
  datatype Common = Found(start: int, end: int) | NotFound

  /** `m` is the largest start of `ranges`: no start exceeds it and some start equals it. */
  ghost predicate IsMaxStart(ranges: seq<(int, int)>, m: int) {
    (forall i :: 0 <= i < |ranges| ==> ranges[i].0 <= m) &&
    (exists i :: 0 <= i < |ranges| && ranges[i].0 == m)
  }

  /** `m` is the smallest end of `ranges`: no end is below it and some end equals it. */
  ghost predicate IsMinEnd(ranges: seq<(int, int)>, m: int) {
    (forall i :: 0 <= i < |ranges| ==> m <= ranges[i].1) &&
    (exists i :: 0 <= i < |ranges| && ranges[i].1 == m)
  }

  /** `max([start for start, _ in ranges])`, scanning left to right. */
  function MaxStart(ranges: seq<(int, int)>): (m: int)
    requires |ranges| > 0
    ensures IsMaxStart(ranges, m)
    decreases |ranges|
  {
    var last := ranges[|ranges| - 1].0;
    if |ranges| == 1 then last
    else
      var front := ranges[..|ranges| - 1];
      var m := MaxStart(front);
      assert forall i :: 0 <= i < |front| ==> front[i] == ranges[i];
      if m < last then last else m
  }

  /** `min([end for _, end in ranges])`, scanning left to right. */
  function MinEnd(ranges: seq<(int, int)>): (m: int)
    requires |ranges| > 0
    ensures IsMinEnd(ranges, m)
    decreases |ranges|
  {
    var last := ranges[|ranges| - 1].1;
    if |ranges| == 1 then last
    else
      var front := ranges[..|ranges| - 1];
      var m := MinEnd(front);
      assert forall i :: 0 <= i < |front| ==> front[i] == ranges[i];
      if last < m then last else m
  }

  /**
   * The rule of lines 70-77 on the collected UTC ranges: the latest start and
   * the earliest end form the common window when the start comes first.
   */
  function Intersect(ranges: seq<(int, int)>): (c: Common)
    requires |ranges| > 0
    ensures c.Found? ==> c.start < c.end
    ensures c.Found? ==> forall i :: 0 <= i < |ranges| ==> ranges[i].0 <= c.start && c.end <= ranges[i].1
  {
    var minStart := MaxStart(ranges);
    var maxEnd := MinEnd(ranges);
    if minStart < maxEnd then Found(minStart, maxEnd) else NotFound
  }

  /** Every range has started by hour `h` and not yet ended: `start <= h < end`. */
  ghost predicate FreeAt(ranges: seq<(int, int)>, h: int) {
    forall i :: 0 <= i < |ranges| ==> ranges[i].0 <= h < ranges[i].1
  }

  /** The rule reports `Found(s, e)` exactly when `s` is the largest start, `e` the smallest end, and `s < e`. */
  lemma IntersectFound(ranges: seq<(int, int)>, s: int, e: int)
    requires |ranges| > 0
    ensures Intersect(ranges) == Found(s, e) <==> IsMaxStart(ranges, s) && IsMinEnd(ranges, e) && s < e
  {
  }

  /**
   * The hours common to every range are exactly those of the reported window;
   * in particular `NotFound` means that no hour is common to all ranges.
   */
  lemma IntersectIsCommonTime(ranges: seq<(int, int)>, h: int)
    requires |ranges| > 0
    ensures FreeAt(ranges, h) <==> Intersect(ranges).Found? && Intersect(ranges).start <= h < Intersect(ranges).end
  {
  }

  /**
   * The result depends only on which ranges occur, not on their order or
   * on how often each occurs.
   */
  lemma IntersectSameRanges(a: seq<(int, int)>, b: seq<(int, int)>)
    requires |a| > 0 && |b| > 0
    requires forall x :: x in a <==> x in b
    ensures Intersect(a) == Intersect(b)
  {
    SameRangesMaxStart(a, b);
    SameRangesMaxStart(b, a);
    SameRangesMinEnd(a, b);
    SameRangesMinEnd(b, a);
  }

  lemma SameRangesMaxStart(a: seq<(int, int)>, b: seq<(int, int)>)
    requires |a| > 0 && |b| > 0
    requires forall x :: x in a ==> x in b
    ensures MaxStart(a) <= MaxStart(b)
  {
    var i :| 0 <= i < |a| && a[i].0 == MaxStart(a);
    assert a[i] in b;
    var j :| 0 <= j < |b| && b[j] == a[i];
  }

  lemma SameRangesMinEnd(a: seq<(int, int)>, b: seq<(int, int)>)
    requires |a| > 0 && |b| > 0
    requires forall x :: x in a ==> x in b
    ensures MinEnd(b) <= MinEnd(a)
  {
    var i :| 0 <= i < |a| && a[i].1 == MinEnd(a);
    assert a[i] in b;
    var j :| 0 <= j < |b| && b[j] == a[i];
  }

  /** Reordering the ranges does not change the result. */
  lemma IntersectReorder(a: seq<(int, int)>, b: seq<(int, int)>)
    requires |a| > 0
    requires multiset(a) == multiset(b)
    ensures |b| == |a|
    ensures Intersect(a) == Intersect(b)
  {
    assert |b| == |multiset(b)| == |multiset(a)| == |a|;
    forall x
      ensures x in a <==> x in b
    {
      assert x in a <==> x in multiset(a);
      assert x in b <==> x in multiset(b);
    }
    IntersectSameRanges(a, b);
  }

  /**
   * One more range never widens the window: if the longer list has a common
   * window, so has the shorter one, and the new window lies inside the old one.
   */
  lemma IntersectAddRange(ranges: seq<(int, int)>, r: (int, int))
    requires |ranges| > 0
    ensures Intersect(ranges + [r]).Found? ==>
              Intersect(ranges).Found? &&
              Intersect(ranges).start <= Intersect(ranges + [r]).start &&
              Intersect(ranges + [r]).end <= Intersect(ranges).end
  {
  }

  /**
   * Hour `h` lies in range `r` read on a 24-hour clock: a range whose end is not
   * after its start runs past midnight into the next day.
   */
  predicate OnClock(r: (int, int), h: int) {
    if r.0 <= r.1 then r.0 <= h < r.1 else r.0 <= h < 24 || 0 <= h < r.1
  }

  /**
   * The rule compares hours of the day and so loses the day boundary: one
   * collected range whose end is not after its start (it crosses UTC midnight)
   * empties the result, whatever the other ranges are.
   */
  lemma CrossingRangeEmpties(ranges: seq<(int, int)>, i: int)
    requires 0 <= i < |ranges| && ranges[i].1 <= ranges[i].0
    ensures Intersect(ranges) == NotFound
  {
  }

  /**
   * A window from 20:00 to 02:00 UTC is read as the empty range (20, 2), so with
   * a second user free 00:00 - 06:00 no common time is reported, although on a
   * 24-hour clock both are free at 01:00.
   */
  lemma MidnightWindowLost()
    ensures Intersect([(20, 2), (0, 6)]) == NotFound
    ensures !FreeAt([(20, 2), (0, 6)], 1)
    ensures forall h :: !FreeAt([(20, 2)], h)
    ensures OnClock((20, 2), 1) && OnClock((0, 6), 1)
  {
  }

  /**
   * The case arises from the form: a user in UTC-2 who picked 18 to 26 and a
   * user in UTC-6 who picked 18 to 30 convert to (20, 2) and (0, 6), and no
   * common time is reported. As in `ConvertExample`, the values are parameters
   * fixed by the requires.
   */
  lemma MidnightWindowLostFromForm(start: int, end1: int, end2: int)
    requires start == 18 && end1 == 26 && end2 == 30
    ensures CommonHoursOf([User(Label(start, end1), -2), User(Label(start, end2), -6)]) == Ok(NotFound)
  {
    ConvertLabelTo(start, end1, -2, (20, 2));
    ConvertLabelTo(start, end2, -6, (0, 6));
    CommonHoursOfConverted([User(Label(start, end1), -2), User(Label(start, end2), -6)], [(20, 2), (0, 6)]);
    MidnightWindowLost();
  }

  /** When every user converts, the result is the rule applied to their ranges in order. */
  lemma CommonHoursOfConverted(users: seq<User>, ranges: seq<(int, int)>)
    requires |users| == |ranges| > 0
    requires forall i :: 0 <= i < |users| ==> Convert(users[i]) == Ok(ranges[i])
    ensures CommonHoursOf(users) == Ok(Intersect(ranges))
  {
    assert FirstFailure(users) == |users|;
    assert UtcRanges(users).value == ranges;
  }

  /** Two users free 08 - 18 and 10 - 20 share 10 - 18; 08 - 10 and 14 - 16 share nothing. */
  lemma IntersectExamples()
    ensures Intersect([(8, 18), (10, 20)]) == Found(10, 18)
    ensures Intersect([(8, 10), (14, 16)]) == NotFound
    ensures Intersect([(9, 17)]) == Found(9, 17)
  {
  }

  /** The converted range of one user, or the error `convert_to_utc` raises for them. */
  function Convert(u: User): Result<(int, int), ConvertError> {
    ConvertToUtc(u.freeTime, u.offset)
  }

  /**
   * Where the loop of lines 66-68 stops: the index of the first user whose
   * free time cannot be converted, or `|users|` when every user converts.
   */
  function FirstFailure(users: seq<User>): (n: nat)
    ensures n <= |users|
    ensures forall j :: 0 <= j < n ==> Convert(users[j]).Ok?
    ensures n < |users| ==> Convert(users[n]).Err?
    decreases |users|
  {
    if users == [] || Convert(users[0]).Err? then 0
    else
      var n := FirstFailure(users[1..]);
      assert forall j :: 1 <= j < |users| ==> users[1..][j - 1] == users[j];
      1 + n
  }

  /**
   * The loop of lines 66-68: each user's UTC range, in order. The first
   * user whose free time cannot be converted aborts the whole computation.
   */
  function UtcRanges(users: seq<User>): (r: Result<seq<(int, int)>, ConvertError>)
    ensures r.Ok? ==> |r.value| == |users|
    ensures r.Ok? ==> forall i :: 0 <= i < |users| ==> Convert(users[i]) == Ok(r.value[i])
    ensures r.Err? ==> exists i :: 0 <= i < |users| && Convert(users[i]) == Err(r.error) &&
                         forall j :: 0 <= j < i ==> Convert(users[j]).Ok?
  {
    var n := FirstFailure(users);
    if n < |users| then Err(Convert(users[n]).error)
    else Ok(seq(n, i requires 0 <= i < n => Convert(users[i]).value))
  }

  /** What `find_common_hours` returns, or the error it raises. */
  function CommonHoursOf(users: seq<User>): Result<Common, ConvertError>
    requires |users| > 0
  {
    match UtcRanges(users)
    case Err(e) => Err(e)
    case Ok(ranges) => Ok(Intersect(ranges))
  }

  /**
   * `find_common_hours`: collects one UTC range per user in a loop, then
   * takes the latest start and the earliest end. An empty list is excluded:
   * `max([])` raises, and the only caller checks that users exist.
   */
  method FindCommonHours(users: seq<User>) returns (r: Result<Common, ConvertError>)
    requires |users| > 0
    ensures r == CommonHoursOf(users)
  {
    var utcRanges: seq<(int, int)> := [];
    for i := 0 to |users|
      invariant |utcRanges| == i
      invariant forall j :: 0 <= j < i ==> Convert(users[j]) == Ok(utcRanges[j])
    {
      var converted := ConvertToUtc(users[i].freeTime, users[i].offset);
      if converted.Err? {
        assert FirstFailure(users) == i;
        return Err(converted.error);
      }
      utcRanges := utcRanges + [converted.value];
    }
    assert FirstFailure(users) == |users|;
    assert UtcRanges(users).value == utcRanges;
    var minStart := MaxStart(utcRanges);
    var maxEnd := MinEnd(utcRanges);
    if minStart < maxEnd {
      r := Ok(Found(minStart, maxEnd));
    } else {
      r := Ok(NotFound);
    }
  }

  /** A reported window lies inside every user's converted range. */
  lemma CommonHoursContained(users: seq<User>, i: int)
    requires 0 <= i < |users|
    requires CommonHoursOf(users).Ok? && CommonHoursOf(users).value.Found?
    ensures Convert(users[i]).Ok?
    ensures var (s, e) := Convert(users[i]).value;
            s <= CommonHoursOf(users).value.start < CommonHoursOf(users).value.end <= e
  {
  }

  /** Whether users can be converted depends only on which users there are. */
  lemma UtcRangesOkSameUsers(a: seq<User>, b: seq<User>)
    requires forall u :: u in a ==> u in b
    requires UtcRanges(b).Ok?
    ensures UtcRanges(a).Ok?
  {
    forall i | 0 <= i < |a|
      ensures Convert(a[i]).Ok?
    {
      assert a[i] in b;
      var j :| 0 <= j < |b| && b[j] == a[i];
    }
  }

  /** Every range collected for `a` is also collected for `b` when `b` has all of `a`'s users. */
  lemma UtcRangesSubset(a: seq<User>, b: seq<User>)
    requires forall u :: u in a ==> u in b
    requires UtcRanges(a).Ok? && UtcRanges(b).Ok?
    ensures forall x :: x in UtcRanges(a).value ==> x in UtcRanges(b).value
  {
    forall x | x in UtcRanges(a).value
      ensures x in UtcRanges(b).value
    {
      var i :| 0 <= i < |UtcRanges(a).value| && UtcRanges(a).value[i] == x;
      assert a[i] in b;
      var j :| 0 <= j < |b| && b[j] == a[i];
      assert UtcRanges(b).value[j] == x;
    }
  }

  /**
   * The order in which users are listed does not matter: a reordered list
   * converts exactly when the original does and yields the same result.
   */
  lemma CommonHoursReorder(a: seq<User>, b: seq<User>)
    requires |a| > 0
    requires multiset(a) == multiset(b)
    ensures |b| > 0
    ensures CommonHoursOf(a).Ok? <==> CommonHoursOf(b).Ok?
    ensures CommonHoursOf(a).Ok? ==> CommonHoursOf(a) == CommonHoursOf(b)
  {
    assert |b| == |multiset(b)| == |multiset(a)| == |a|;
    forall u
      ensures u in a <==> u in b
    {
      assert u in a <==> u in multiset(a);
      assert u in b <==> u in multiset(b);
    }
    if UtcRanges(a).Ok? {
      UtcRangesOkSameUsers(b, a);
    }
    if UtcRanges(b).Ok? {
      UtcRangesOkSameUsers(a, b);
    }
    if UtcRanges(a).Ok? {
      UtcRangesSubset(a, b);
      UtcRangesSubset(b, a);
      IntersectSameRanges(UtcRanges(a).value, UtcRanges(b).value);
    }
  }

  /**
   * Registering one more user never widens the common window: if the longer
   * list yields a window, the shorter one yields a window containing it.
   */
  lemma CommonHoursAddUser(users: seq<User>, u: User)
    requires |users| > 0
    ensures CommonHoursOf(users + [u]).Ok? && CommonHoursOf(users + [u]).value.Found? ==>
              CommonHoursOf(users).Ok? && CommonHoursOf(users).value.Found? &&
              CommonHoursOf(users).value.start <= CommonHoursOf(users + [u]).value.start &&
              CommonHoursOf(users + [u]).value.end <= CommonHoursOf(users).value.end
  {
    assert (users + [u])[..|users|] == users;
    if UtcRanges(users + [u]).Ok? {
      var ranges := UtcRanges(users).value;
      var p := UtcRanges(users + [u]).value[|users|];
      assert UtcRanges(users + [u]).value == ranges + [p];
      IntersectAddRange(ranges, p);
    }
  }

  /** The user's free time is the label of the slider pair `slot`, as the registration form stores it. */
  ghost predicate RegisteredAs(u: User, slot: (int, int)) {
    IsSliderHour(slot.0) && IsSliderHour(slot.1) && u.freeTime == Label(slot.0, slot.1)
  }

  /** Every user registered through the form, user `i` with the slider pair `slots[i]`. */
  ghost predicate RegisteredWith(users: seq<User>, slots: seq<(int, int)>) {
    |slots| == |users| && forall i :: 0 <= i < |users| ==> RegisteredAs(users[i], slots[i])
  }

  /** For registered users, each collected range ends at that user's local midnight in UTC. */
  lemma RegisteredRangeEnds(users: seq<User>, slots: seq<(int, int)>)
    requires RegisteredWith(users, slots)
    requires UtcRanges(users).Ok?
    ensures forall i :: 0 <= i < |users| ==> UtcRanges(users).value[i].1 == (0 - users[i].offset) % 24
  {
    forall i | 0 <= i < |users|
      ensures UtcRanges(users).value[i].1 == (0 - users[i].offset) % 24
    {
      RegisteredRangeEnd(users, i, slots[i]);
    }
  }

  lemma RegisteredRangeEnd(users: seq<User>, i: int, slot: (int, int))
    requires 0 <= i < |users| && RegisteredAs(users[i], slot)
    requires UtcRanges(users).Ok?
    ensures UtcRanges(users).value[i].1 == (0 - users[i].offset) % 24
  {
    RegisteredUserRange(users[i], slot);
  }

  /** A user registered with a slider pair converts to a range ending at local midnight. */
  lemma RegisteredUserRange(u: User, slot: (int, int))
    requires RegisteredAs(u, slot)
    ensures Convert(u).Ok? ==> Convert(u).value.1 == (0 - u.offset) % 24
  {
    ConvertLabel(slot.0, slot.1, u.offset);
  }

  /**
   * Because the parse reads the start's minute field as the end, a window
   * found for registered users always ends at some user's local midnight,
   * whatever end hours they chose.
   */
  lemma RegisteredWindowEndsAtMidnight(users: seq<User>, slots: seq<(int, int)>)
    requires |users| > 0
    requires RegisteredWith(users, slots)
    ensures CommonHoursOf(users).Ok? && CommonHoursOf(users).value.Found? ==>
              exists i :: 0 <= i < |users| && CommonHoursOf(users).value.end == (0 - users[i].offset) % 24
  {
    if UtcRanges(users).Ok? {
      RegisteredRangeEnds(users, slots);
      MinEndAtSomeMidnight(UtcRanges(users).value, users);
    }
  }

  /** When every range ends at its user's local midnight, so does the earliest end. */
  lemma MinEndAtSomeMidnight(ranges: seq<(int, int)>, users: seq<User>)
    requires |ranges| == |users| > 0
    requires forall i :: 0 <= i < |users| ==> ranges[i].1 == (0 - users[i].offset) % 24
    ensures exists i :: 0 <= i < |users| && MinEnd(ranges) == (0 - users[i].offset) % 24
  {
    var i :| 0 <= i < |ranges| && ranges[i].1 == MinEnd(ranges);
  }

  /**
   * When every registered user is in UTC, no common time is ever reported,
   * whatever windows they chose: every range ends at hour 0.
   */
  lemma UtcUsersNeverOverlap(users: seq<User>, slots: seq<(int, int)>)
    requires |users| > 0
    requires RegisteredWith(users, slots)
    requires forall i :: 0 <= i < |users| ==> users[i].offset == 0
    ensures !(CommonHoursOf(users).Ok? && CommonHoursOf(users).value.Found?)
  {
    RegisteredWindowEndsAtMidnight(users, slots);
    NoWindowEndsAtUtcMidnight(users);
  }

  /** A window that must end at the local midnight of a user in UTC, hour 0, cannot exist. */
  lemma NoWindowEndsAtUtcMidnight(users: seq<User>)
    requires |users| > 0
    requires CommonHoursOf(users).Ok? && CommonHoursOf(users).value.Found? ==>
               exists i :: 0 <= i < |users| && CommonHoursOf(users).value.end == (0 - users[i].offset) % 24
    requires forall i :: 0 <= i < |users| ==> users[i].offset == 0
    ensures !(CommonHoursOf(users).Ok? && CommonHoursOf(users).value.Found?)
  {
  }

  /** A reported window lies within one day of UTC hours: `0 <= start < end <= 23`. */
  lemma CommonHoursInDay(users: seq<User>)
    requires |users| > 0
    ensures CommonHoursOf(users).Ok? && CommonHoursOf(users).value.Found? ==>
              0 <= CommonHoursOf(users).value.start < CommonHoursOf(users).value.end < 24
  {
  }

  /**
   * A single user in UTC+2 who picked 10 to 12 gets the window 8 - 22 UTC:
   * the start is right, the end is local midnight. As in `ConvertExample`,
   * the values are parameters fixed by the requires rather than literals.
   */
  lemma SingleUserExample(users: seq<User>, start: int, end: int)
    requires start == 10 && end == 12
    requires users == [User(Label(start, end), 2)]
    ensures CommonHoursOf(users) == Ok(Found(8, 22))
  {
    ConvertExample(start, end, 2);
    assert Convert(users[0]) == Ok((8, 22));
    assert UtcRanges(users).value == [(8, 22)];
  }

}
