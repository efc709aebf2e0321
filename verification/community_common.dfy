/** Helpers shared by the community applications (communities/common.py, both variants):
    `activity_time_format`, the short "how long ago" label, and `object_viewers`, the
    members who have viewed an object.

    A datetime is its whole seconds and microseconds since the epoch, in UTC, with the
    calendar fields the label reads; the calendar, the month abbreviation of the locale and
    the translation of the unit letters are not modelled (the abbreviation is a field). The
    current time is a parameter, and the view tracker's records and the manager check are
    inputs. */
module CommunityCommon {
  import opened Wrappers
  import opened Text
  import opened Communities

  /** The two copies of the module: `src/.../common.py` (newer) and `abilian/.../common.py`
      (older). */
  datatype Variant = Newer | Older

  datatype DateTime = DateTime(seconds: int, micro: nat, year: nat, day: nat, monthAbbr: string)

  predicate ValidDateTime(t: DateTime) {
    t.micro < 1000000
  }

  const SecondsPerDay: int := 86400

  /** The whole seconds of `now - time` as a `timedelta` holds them: the difference is
      rounded down to a whole second. */
  function ElapsedSeconds(time: DateTime, now: DateTime): (e: int)
    requires ValidDateTime(time) && ValidDateTime(now)
    ensures e * 1000000 <= (now.seconds - time.seconds) * 1000000 + (now.micro - time.micro) < (e + 1) * 1000000
  {
    (now.seconds - time.seconds) - (if now.micro < time.micro then 1 else 0)
  }

  /** The label once the `timedelta` is split into days and the seconds within the day,
      as the newer variant tests them. */
  function NewerLabel(time: DateTime, now: DateTime, days: int, secs: int): string {
    var hours := secs / 3600;
    var minutes := secs / 60;
    if days == 0 && hours == 0 && minutes == 0 then IntToString(secs) + "s"
    else if days == 0 && hours == 0 then IntToString(minutes) + "m"
    else if days == 0 then IntToString(hours) + "h"
    else if days < 30 then IntToString(days) + "d"
    else if time.year == now.year then time.monthAbbr + " " + NatToString(time.day)
    else time.monthAbbr + " " + NatToString(time.year)
  }

  /** The same, as the older variant tests them. */
  function OlderLabel(time: DateTime, now: DateTime, days: int, secs: int): string {
    var hours := secs / 3600;
    var minutes := secs / 60;
    if days == 0 then
      if minutes < 1 then IntToString(secs) + "s"
      else if minutes < 60 then IntToString(minutes % 60) + "m"
      else IntToString(hours) + "h"
    else if days < 30 then IntToString(days) + "d"
    else if time.year == now.year then time.monthAbbr + " " + NatToString(time.day)
    else time.monthAbbr + " " + NatToString(time.year)
  }

  /** What the label says for `e` elapsed whole seconds. */
  predicate LabelFor(r: string, t: DateTime, n: DateTime, e: int) {
    (0 <= e < 60 ==> r == NatToString(e) + "s")
    && (60 <= e < 3600 ==> r == NatToString(e / 60) + "m")
    && (3600 <= e < SecondsPerDay ==> r == NatToString(e / 3600) + "h")
    && (e < 0 || SecondsPerDay <= e < 30 * SecondsPerDay ==> r == IntToString(e / SecondsPerDay) + "d")
    && (30 * SecondsPerDay <= e && t.year == n.year ==> r == t.monthAbbr + " " + NatToString(t.day))
    && (30 * SecondsPerDay <= e && t.year != n.year ==> r == t.monthAbbr + " " + NatToString(t.year))
  }

  /** The newer variant's tests on the split `timedelta` give the label for `e`. */
  lemma NewerLabelFor(t: DateTime, n: DateTime, e: int)
    ensures LabelFor(NewerLabel(t, n, e / SecondsPerDay, e % SecondsPerDay), t, n, e)
  {
    var days := e / SecondsPerDay;
    var secs := e % SecondsPerDay;
    if 0 <= e < SecondsPerDay {
      assert days == 0 && secs == e;
    } else if e < 0 {
      assert days < 0;
    } else {
      assert days >= 1;
      if e < 30 * SecondsPerDay {
        assert days < 30;
      } else {
        assert days >= 30;
      }
    }
  }

  /** `activity_time_format`: no time gives the empty label. Otherwise, for `e` the elapsed
      whole seconds: under a minute the seconds, under an hour the whole minutes, under a day
      the whole hours, under 30 days (or in the future) the days, rounded down; older times
      give the month and the day in the same year, the month and the year otherwise. The
      newer variant takes `now` (the current time when missing); the older always uses the
      current time. */
  function ActivityTimeFormat(variant: Variant, time: Option<DateTime>, now: Option<DateTime>,
                              utcNow: DateTime): (r: string)
    requires time.Some? ==> ValidDateTime(time.value)
    requires now.Some? ==> ValidDateTime(now.value)
    requires ValidDateTime(utcNow)
    ensures time.None? ==> r == ""
    ensures time.Some? ==>
              var n := if variant == Newer && now.Some? then now.value else utcNow;
              LabelFor(r, time.value, n, ElapsedSeconds(time.value, n))
  {
    if time.None? then ""
    else
      var n := if variant == Newer && now.Some? then now.value else utcNow;
      var e := ElapsedSeconds(time.value, n);
      var days := e / SecondsPerDay;
      var secs := e % SecondsPerDay;
      NewerLabelFor(time.value, n, e);
      LabelsAgree(time.value, n, days, secs);
      if variant == Newer then NewerLabel(time.value, n, days, secs)
      else OlderLabel(time.value, n, days, secs)
  }

  /** The two variants give the same label whenever they compare with the same time. */
  lemma ActivityTimeFormatVariantsAgree(time: Option<DateTime>, utcNow: DateTime)
    requires time.Some? ==> ValidDateTime(time.value)
    requires ValidDateTime(utcNow)
    ensures ActivityTimeFormat(Newer, time, None, utcNow) == ActivityTimeFormat(Older, time, None, utcNow)
  {
    if time.Some? {
      var e := ElapsedSeconds(time.value, utcNow);
      var days := e / SecondsPerDay;
      var secs := e % SecondsPerDay;
      LabelsAgree(time.value, utcNow, days, secs);
    }
  }

  lemma LabelsAgree(time: DateTime, now: DateTime, days: int, secs: int)
    requires 0 <= secs < SecondsPerDay
    ensures NewerLabel(time, now, days, secs) == OlderLabel(time, now, days, secs)
  {
    if days == 0 && secs / 60 >= 1 && secs / 60 < 60 {
      assert secs / 3600 == 0;
    }
  }

  /** The number in a label of the first four kinds reads back as the count it shows. */
  lemma ActivityLabelReadsBack(time: DateTime, now: DateTime)
    requires ValidDateTime(time) && ValidDateTime(now)
    requires 0 <= ElapsedSeconds(time, now) < 30 * SecondsPerDay
    ensures var r := ActivityTimeFormat(Newer, Some(time), Some(now), now);
            var e := ElapsedSeconds(time, now);
            |r| > 1
            && PyInt(r[..|r| - 1]) == Some(if e < 60 then e else if e < 3600 then e / 60
                                            else if e < SecondsPerDay then e / 3600 else e / SecondsPerDay)
  {
    var r := ActivityTimeFormat(Newer, Some(time), Some(now), now);
    var e := ElapsedSeconds(time, now);
    var k: nat := if e < 60 then e else if e < 3600 then e / 60 else if e < SecondsPerDay then e / 3600 else e / SecondsPerDay;
    var unit := if e < 60 then "s" else if e < 3600 then "m" else if e < SecondsPerDay then "h" else "d";
    assert r == NatToString(k) + unit;
    assert r[..|r| - 1] == NatToString(k);
    PyIntNat(k);
  }

  // ---------------------------------------------------------------------------
  // object_viewers
  // ---------------------------------------------------------------------------

  /** A record of the view tracker: who viewed the object, and when each hit happened,
      oldest first. */
  datatype View = View(user: UserId, hits: seq<int>)

  /** One entry of the result: the viewer and the time of their latest hit. */
  datatype Viewer = Viewer(user: UserId, viewedAt: int)

  datatype ViewersError = IndexError

  /** Whether a view counts: its user is a member of the community other than the creator. */
  predicate Counted(c: Community, creator: UserId, v: View) {
    v.user in c.memberships && v.user != creator
  }

  /** The counted views, each with its latest hit; a counted view without hits is an
      IndexError. */
  function Viewers(c: Community, creator: UserId, views: seq<View>): (r: Result<seq<Viewer>, ViewersError>)
    ensures r.Success? <==> forall i :: 0 <= i < |views| && Counted(c, creator, views[i]) ==> |views[i].hits| > 0
    ensures r.Success? ==> |r.value| <= |views|
    ensures r.Success? ==> forall w :: w in r.value ==> w.user in c.memberships && w.user != creator
    ensures r.Failure? ==> r.error == IndexError
  {
    if |views| == 0 then Success([])
    else
      var v := views[0];
      assert forall i :: 0 < i < |views| ==> views[i] == views[1..][i - 1];
      if Counted(c, creator, v) && |v.hits| == 0 then Failure(IndexError)
      else
        match Viewers(c, creator, views[1..])
        case Failure(e) => Failure(e)
        case Success(rest) =>
          Success((if Counted(c, creator, v) then [Viewer(v.user, v.hits[|v.hits| - 1])] else []) + rest)
  }

  /** Every counted view appears, with its latest hit, and nothing else does. */
  lemma {:induction false} ViewersExactly(c: Community, creator: UserId, views: seq<View>, w: Viewer)
    requires Viewers(c, creator, views).Success?
    ensures w in Viewers(c, creator, views).value <==>
              exists v :: v in views && Counted(c, creator, v) && w == Viewer(v.user, v.hits[|v.hits| - 1])
    decreases |views|
  {
    if |views| > 0 {
      ViewersExactly(c, creator, views[1..], w);
      assert views == [views[0]] + views[1..];
    }
  }

  /** `object_viewers`: the member views for a manager. Anybody else gets an empty list in
      the newer variant and None in the older, which has no final return. */
  function ObjectViewers(variant: Variant, isManager: bool, c: Community, creator: UserId, views: seq<View>)
    : (r: Result<Option<seq<Viewer>>, ViewersError>)
    ensures !isManager ==> r == Success(if variant == Newer then Some([]) else None)
    ensures isManager ==> r.Success? == Viewers(c, creator, views).Success?
    ensures isManager && r.Success? ==> r.value == Some(Viewers(c, creator, views).value)
  {
    if isManager then
      match Viewers(c, creator, views)
      case Failure(e) => Failure(e)
      case Success(vs) => Success(Some(vs))
    else Success(if variant == Newer then Some([]) else None)
  }
}
