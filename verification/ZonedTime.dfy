/**
 * The instant a wall-clock time denotes in a zone (apps/seed/src/zoned-time.ts). Instants and wall
 * clocks are milliseconds; a wall clock is the instant at which UTC shows it. The zone's offset is a
 * function of the instant, and `utc` is the calendar's reading of six numbers.
 */
module ZonedTime {
  import opened Options
  import opened JsNumber

  type Calendar = (nat, nat, nat, nat, nat, nat) -> int

  /** The number in `s[i..j]`, if these are digits. */
  function Number(s: string, i: nat, j: nat): Option<nat>
  {
    if i < j <= |s| then Digits(s[i..j]) else None
  }

  /** `2025-11-02T11:15`, with seconds or without; `None` where the source throws. */
  function WallClock(local: string, utc: Calendar): Option<int>
  {
    var n := |local|;
    if n != 16 && n != 19 then None
    else if local[4] != '-' || local[7] != '-' || local[10] != 'T' || local[13] != ':' then None
    else if n == 19 && local[16] != ':' then None
    else
      var year := Number(local, 0, 4);
      var month := Number(local, 5, 7);
      var day := Number(local, 8, 10);
      var hour := Number(local, 11, 13);
      var minute := Number(local, 14, 16);
      var second := if n == 19 then Number(local, 17, 19) else Some(0);
      if year.None? || month.None? || day.None? || hour.None? || minute.None? || second.None? then None
      else Some(utc(year.value, month.value, day.value, hour.value, minute.value, second.value))
  }

  /** A number in so many digits, with leading zeros. */
  function Padded(n: nat, width: nat): (s: string)
    ensures |s| == width
    ensures forall c :: c in s ==> IsDigit(c)
  {
    if width == 0 then "" else Padded(n / 10, width - 1) + [('0' as nat + n % 10) as char]
  }

  function TenTo(n: nat): nat { if n == 0 then 1 else 10 * TenTo(n - 1) }

  lemma {:induction false} PaddedIsRead(n: nat, width: nat)
    requires width > 0 && n < TenTo(width)
    ensures Digits(Padded(n, width)) == Some(n)
  {
    hide Digits;
    if width == 1 {
      assert TenTo(1) == 10 * TenTo(0);
      assert Padded(n / 10, 0) == "" && n % 10 == n;
      assert Padded(n, 1) == [('0' as nat + n) as char];
      DigitsMore("", n);
    } else {
      PaddedIsRead(n / 10, width - 1);
      DigitsMore(Padded(n / 10, width - 1), n % 10);
    }
  }

  lemma ReadsTwo(n: nat)
    requires n < 100
    ensures Digits(Padded(n, 2)) == Some(n)
  {
    hide Padded, Digits;
    assert TenTo(2) == 10 * TenTo(1) && TenTo(1) == 10 * TenTo(0);
    PaddedIsRead(n, 2);
  }

  lemma ReadsFour(n: nat)
    requires n < 10000
    ensures Digits(Padded(n, 4)) == Some(n)
  {
    hide Padded, Digits;
    assert TenTo(4) == 10 * TenTo(3) && TenTo(3) == 10 * TenTo(2) && TenTo(2) == 10 * TenTo(1) && TenTo(1) == 10 * TenTo(0);
    PaddedIsRead(n, 4);
  }

  /** A wall clock as it is written; the seconds can be left out. */
  function Written(year: nat, month: nat, day: nat, hour: nat, minute: nat, second: Option<nat>): (s: string)
    ensures |s| == if second.None? then 16 else 19
  {
    Padded(year, 4) + ("-" + (Padded(month, 2) + ("-" + (Padded(day, 2) + ("T" + (Padded(hour, 2) + (":" +
    (Padded(minute, 2) + if second.None? then "" else ":" + Padded(second.value, 2)))))))))
  }

  lemma Peel(field: string, mark: char, rest: string, s: string)
    requires s == field + ([mark] + rest)
    ensures s[..|field|] == field && s[|field|] == mark && s[|field| + 1..] == rest
  {
  }

  lemma Within(s: string, at: nat, rest: string, n: nat)
    requires at <= |s| && s[at..] == rest && n <= |rest|
    ensures at + n <= |s| && s[at..at + n] == rest[..n]
    ensures forall k :: at <= k < |s| ==> s[k] == rest[k - at]
    ensures s[at + n..] == rest[n..]
  {
    assert forall k :: 0 <= k < |rest| ==> rest[k] == s[at + k];
  }

  lemma WrittenParts(year: nat, month: nat, day: nat, hour: nat, minute: nat, second: Option<nat>)
    ensures var s := Written(year, month, day, hour, minute, second);
            && s[0..4] == Padded(year, 4) && s[5..7] == Padded(month, 2) && s[8..10] == Padded(day, 2)
            && s[11..13] == Padded(hour, 2) && s[14..16] == Padded(minute, 2)
            && s[4] == '-' && s[7] == '-' && s[10] == 'T' && s[13] == ':'
            && (second.Some? ==> s[16] == ':' && s[17..19] == Padded(second.value, 2))
  {
    hide Padded;
    var t5 := if second.None? then "" else ":" + Padded(second.value, 2);
    var t4 := Padded(minute, 2) + t5;
    var t3 := Padded(hour, 2) + (":" + t4);
    var t2 := Padded(day, 2) + ("T" + t3);
    var t1 := Padded(month, 2) + ("-" + t2);
    var s := Padded(year, 4) + ("-" + t1);
    assert s == Written(year, month, day, hour, minute, second);
    WrittenRest(s, Padded(year, 4), '-', t1, 0, s);
    WrittenRest(s, Padded(month, 2), '-', t2, 5, t1);
    WrittenRest(s, Padded(day, 2), 'T', t3, 8, t2);
    WrittenRest(s, Padded(hour, 2), ':', t4, 11, t3);
    Within(s, 14, t4, 2);
    assert t4[..2] == Padded(minute, 2) && t4[2..] == t5;
    if second.Some? { WrittenLast(s, t5, Padded(second.value, 2)); }
  }

  /** One field and the mark behind it, at a place in the text. */
  lemma WrittenRest(s: string, field: string, mark: char, rest: string, at: nat, t: string)
    requires at <= |s| && s[at..] == t && t == field + ([mark] + rest)
    ensures at + |field| < |s| && s[at..at + |field|] == field && s[at + |field|] == mark && s[at + |field| + 1..] == rest
  {
    Peel(field, mark, rest, t);
    Within(s, at, t, |field|);
    Within(s, at, t, |field| + 1);
  }

  lemma WrittenLast(s: string, t: string, field: string)
    requires |s| == 19 && s[16..] == t && t == ":" + field && |field| == 2
    ensures s[16] == ':' && s[17..19] == field
  {
    Within(s, 16, t, 1);
    assert t[1..] == field && s[17..19] == s[17..];
  }

  /** What is written is read back as the calendar's reading of its six numbers; without seconds the sixth is 0. */
  lemma WrittenIsRead(year: nat, month: nat, day: nat, hour: nat, minute: nat, second: Option<nat>, utc: Calendar)
    requires year < 10000 && month < 100 && day < 100 && hour < 100 && minute < 100 && (second.Some? ==> second.value < 100)
    ensures WallClock(Written(year, month, day, hour, minute, second), utc)
            == Some(utc(year, month, day, hour, minute, if second.Some? then second.value else 0))
  {
    hide Padded, Written, Digits;
    WrittenParts(year, month, day, hour, minute, second);
    ReadsFour(year);
    ReadsTwo(month);
    ReadsTwo(day);
    ReadsTwo(hour);
    ReadsTwo(minute);
    if second.Some? { ReadsTwo(second.value); }
  }

  lemma {:induction false} DigitsAreDigits(s: string)
    requires Digits(s).Some?
    ensures forall c :: c in s ==> IsDigit(c)
  {
    if |s| > 1 {
      DigitsAreDigits(s[..|s| - 1]);
      assert s == s[..|s| - 1] + [s[|s| - 1]];
    }
  }

  /** Only so written texts are read: digits in their places and the five marks between them. */
  lemma OnlyWrittenIsRead(local: string, utc: Calendar)
    requires WallClock(local, utc).Some?
    ensures |local| == 16 || (|local| == 19 && local[16] == ':')
    ensures local[4] == '-' && local[7] == '-' && local[10] == 'T' && local[13] == ':'
    ensures forall i :: 0 <= i < |local| && i != 4 && i != 7 && i != 10 && i != 13 && i != 16 ==> IsDigit(local[i])
  {
    hide Digits, IsDigit;
    DigitsAreDigits(local[0..4]);
    DigitsAreDigits(local[5..7]);
    DigitsAreDigits(local[8..10]);
    DigitsAreDigits(local[11..13]);
    DigitsAreDigits(local[14..16]);
    if |local| == 19 { DigitsAreDigits(local[17..19]); }
    forall i | 0 <= i < |local| && i != 4 && i != 7 && i != 10 && i != 13 && i != 16 ensures IsDigit(local[i]) {
      if i < 4 { assert local[i] == local[0..4][i]; }
      else if i < 7 { assert local[i] == local[5..7][i - 5]; }
      else if i < 10 { assert local[i] == local[8..10][i - 8]; }
      else if i < 13 { assert local[i] == local[11..13][i - 11]; }
      else if i < 16 { assert local[i] == local[14..16][i - 14]; }
      else { assert local[i] == local[17..19][i - 17]; }
    }
  }

  /** The offset is read at the candidate instant and corrected once. */
  function Instant(offset: int -> int, wall: int): int
  {
    var first := wall - offset(wall);
    wall - offset(first)
  }

  function LocalToEpoch(local: string, offset: int -> int, utc: Calendar): Option<int>
  {
    match WallClock(local, utc) case None => None case Some(wall) => Some(Instant(offset, wall))
  }

  /** What a clock in the zone shows at an instant. */
  function Shown(offset: int -> int, t: int): int { t + offset(t) }

  /** No offset exceeds `bound`, and within `bound` of the wall clock it changes at most once, at `change`. */
  ghost predicate OneChange(offset: int -> int, wall: int, bound: int, change: int, before: int, after: int)
  {
    (forall t :: -bound <= offset(t) <= bound)
    && -bound <= before <= bound && -bound <= after <= bound
    && forall t :: wall - bound <= t <= wall + bound ==> offset(t) == if t < change then before else after
  }

  /** Some instant shows the wall clock. */
  ghost predicate Exists(offset: int -> int, wall: int) { exists t :: Shown(offset, t) == wall }

  /** The instants that show a wall clock: one under each offset, if it falls on that offset's side of the change. */
  lemma ShownExactly(offset: int -> int, wall: int, bound: int, change: int, before: int, after: int, t: int)
    requires OneChange(offset, wall, bound, change, before, after)
    ensures Shown(offset, t) == wall <==> (t == wall - before && t < change) || (t == wall - after && t >= change)
  {
    assert -bound <= offset(t) <= bound;
  }

  /**
   * A wall clock that exists is mapped to an instant that shows it. One inside a gap is mapped to an
   * instant that is off by exactly the length of the gap: too late if the wall clock, read as UTC, is
   * not before the change, and too early otherwise.
   */
  lemma InvertsExactly(offset: int -> int, wall: int, bound: int, change: int, before: int, after: int)
    requires OneChange(offset, wall, bound, change, before, after)
    ensures var shown := Shown(offset, Instant(offset, wall));
            if Exists(offset, wall) then shown == wall
            else after > before && shown == if wall >= change then wall + (after - before) else wall - (after - before)
  {
    if Exists(offset, wall) {
      var t :| Shown(offset, t) == wall;
      ShownExactly(offset, wall, bound, change, before, after, t);
    } else {
      ShownExactly(offset, wall, bound, change, before, after, wall - before);
      ShownExactly(offset, wall, bound, change, before, after, wall - after);
      assert Shown(offset, wall - before) != wall && Shown(offset, wall - after) != wall;
    }
  }

  /** A wall clock exists unless it falls in a gap: behind the change under the old offset, short of it under the new. */
  lemma ExistsExactly(offset: int -> int, wall: int, bound: int, change: int, before: int, after: int)
    requires OneChange(offset, wall, bound, change, before, after)
    ensures Exists(offset, wall) <==> !(change + before <= wall < change + after)
  {
    ShownExactly(offset, wall, bound, change, before, after, wall - before);
    ShownExactly(offset, wall, bound, change, before, after, wall - after);
    if Exists(offset, wall) {
      var t :| Shown(offset, t) == wall;
      ShownExactly(offset, wall, bound, change, before, after, t);
    } else {
      assert Shown(offset, wall - before) != wall && Shown(offset, wall - after) != wall;
    }
  }

  /** An ambiguous wall clock, shown twice, is mapped to its earlier instant if it is, read as UTC, before the change. */
  lemma AmbiguousChoice(offset: int -> int, wall: int, bound: int, change: int, before: int, after: int)
    requires OneChange(offset, wall, bound, change, before, after)
    requires change + after <= wall < change + before
    ensures Shown(offset, wall - before) == wall == Shown(offset, wall - after)
    ensures Instant(offset, wall) == if wall < change then wall - before else wall - after
  {
    ShownExactly(offset, wall, bound, change, before, after, wall - before);
    ShownExactly(offset, wall, bound, change, before, after, wall - after);
  }

  // ----- Two changes -----

  /** A clock put forward an hour twice, an hour apart. */
  function TwoSteps(t: int): int { if t < -5400000 then 0 else if t < -1800000 then 3600000 else 7200000 }

  /** With two changes near the wall clock, a time that exists can be missed: one correction is not enough. */
  lemma TwoChangesMiss()
    ensures Shown(TwoSteps, -3600000) == 0
    ensures Shown(TwoSteps, Instant(TwoSteps, 0)) == 7200000
  {
  }

  /** The whole function: a written wall clock that exists is mapped to an instant at which the zone shows it. */
  lemma WrittenIsInverted(year: nat, month: nat, day: nat, hour: nat, minute: nat, second: Option<nat>, utc: Calendar,
                          offset: int -> int, bound: int, change: int, before: int, after: int)
    requires year < 10000 && month < 100 && day < 100 && hour < 100 && minute < 100 && (second.Some? ==> second.value < 100)
    requires var wall := utc(year, month, day, hour, minute, if second.Some? then second.value else 0);
             OneChange(offset, wall, bound, change, before, after) && Exists(offset, wall)
    ensures var wall := utc(year, month, day, hour, minute, if second.Some? then second.value else 0);
            var r := LocalToEpoch(Written(year, month, day, hour, minute, second), offset, utc);
            r.Some? && r.value + offset(r.value) == wall
  {
    hide Written, WallClock, OneChange, Exists, Instant;
    WrittenIsRead(year, month, day, hour, minute, second, utc);
    InvertsExactly(offset, utc(year, month, day, hour, minute, if second.Some? then second.value else 0), bound, change, before, after);
  }
}
