/**
 * The event card: the status line computed from the time left until the
 * event starts, its colour, and which of the Join / Leave / Delete buttons
 * the viewer sees.
 */
module EventCard {
  import opened EventModel
  import Catalog

  const MsPerSecond: nat := 1000
  const MsPerMinute: nat := 60000
  const MinutesPerHour: nat := 60
  const MinutesPerDay: nat := 1440
  /** An event is taken to last two hours after its start. */
  const AssumedDurationMinutes: nat := 120

  const Grey: string := "#6b7280"
  const Green: string := "#16a34a"
  const Blue: string := "#2563eb"
  const Orange: string := "#ea580c"

  // ------------------------------------------------------------- decimals

  predicate IsDigits(s: string) {
    forall i :: 0 <= i < |s| ==> '0' <= s[i] <= '9'
  }

  function DigitChar(d: nat): char
    requires d < 10
  {
    ('0' as int + d) as char
  }

  /** `String(n)` for a non-negative integer. */
  function Decimal(n: nat): (s: string)
    ensures |s| >= 1 && IsDigits(s)
    ensures |s| == 1 <==> n < 10
    ensures n < 100 ==> |s| <= 2
    ensures s[0] == '0' <==> n == 0
  {
    if n < 10 then [DigitChar(n)] else Decimal(n / 10) + [DigitChar(n % 10)]
  }

  /** The number a string of digits denotes. */
  function DigitsValue(s: string): nat
    requires IsDigits(s)
  {
    if s == [] then 0 else DigitsValue(s[..|s| - 1]) * 10 + (s[|s| - 1] as int - '0' as int)
  }

  /** Reading back a decimal gives the number. */
  lemma {:induction false} DecimalRoundTrip(n: nat)
    ensures DigitsValue(Decimal(n)) == n
  {
    if n >= 10 {
      DecimalRoundTrip(n / 10);
      var s := Decimal(n);
      assert s[..|s| - 1] == Decimal(n / 10);
    }
  }

  /**
   * `String(n).padStart(2, '0')`: at least two digits that read back as the
   * number, exactly two below 100.
   */
  function Pad2(n: nat): (p: string)
    ensures |p| >= 2 && IsDigits(p) && DigitsValue(p) == n
    ensures n < 100 ==> |p| == 2
  {
    DecimalRoundTrip(n);
    var d := Decimal(n);
    if |d| < 2 then
      assert ("0" + d)[..1] == "0" && "0"[..0] == [];
      "0" + d
    else
      d
  }

  // --------------------------------------------------------------- status

  /** What the status line shows. */
  datatype Status =
    | Ended
    | LiveNow
    | DaysAway(days: nat, hours: nat)
    | Clock(hours: nat, minutes: nat, seconds: nat)

  /**
   * `Math.floor(diffMs / 60000)`. Dafny's division by a positive divisor
   * rounds down, as Math.floor does, also for negative `diffMs`.
   */
  function DiffMinutes(diffMs: int): (m: int)
    ensures m * MsPerMinute <= diffMs < (m + 1) * MsPerMinute
  {
    diffMs / MsPerMinute
  }

  /**
   * The classification of updateCountdown. In the two branches that take a
   * remainder, the remainder is of a positive number, where JavaScript's
   * `%` agrees with Dafny's.
   */
  function StatusOf(diffMs: int): (st: Status)
    ensures st.Ended? <==> DiffMinutes(diffMs) <= -(AssumedDurationMinutes as int)
    ensures st.LiveNow? <==> -(AssumedDurationMinutes as int) < DiffMinutes(diffMs) <= 0
    ensures st.DaysAway? <==> DiffMinutes(diffMs) > MinutesPerDay
    ensures st.Clock? <==> 0 < DiffMinutes(diffMs) <= MinutesPerDay
    ensures st.DaysAway? ==>
      && st.days >= 1 && st.hours <= 23
      && st.days * MinutesPerDay + st.hours * MinutesPerHour <= DiffMinutes(diffMs)
      && DiffMinutes(diffMs) < st.days * MinutesPerDay + (st.hours + 1) * MinutesPerHour
    ensures st.Clock? ==>
      && st.hours <= 24 && st.minutes <= 59 && st.seconds <= 59
      && st.hours * 3600000 + st.minutes * MsPerMinute + st.seconds * MsPerSecond
         == diffMs - diffMs % MsPerSecond
  {
    var m := DiffMinutes(diffMs);
    if m <= -(AssumedDurationMinutes as int) then Ended
    else if m <= 0 then LiveNow
    else if m > MinutesPerDay then
      DaysAway(m / MinutesPerDay, (m % MinutesPerDay) / MinutesPerHour)
    else
      var r := diffMs % MsPerMinute;
      assert diffMs == m * MsPerMinute + r;
      assert r == (r / MsPerSecond) * MsPerSecond + r % MsPerSecond;
      assert diffMs % MsPerSecond == r % MsPerSecond;
      Clock(m / MinutesPerHour, m % MinutesPerHour, r / MsPerSecond)
  }

  /** The text of an event still ahead: "Starts in " and then `rest`. */
  function StartsIn(rest: string): (t: string)
    ensures |t| == 10 + |rest| && t[..10] == "Starts in " && t[10..] == rest
  {
    "Starts in " + rest
  }

  /** The text says "Starts in" exactly while the event is still ahead. */
  /**
   * Less than a minute before the start the whole minutes left are 0, so
   * the card already reads "Live now".
   */
  lemma LiveNowBeforeStart(diffMs: int)
    requires 0 < diffMs < MsPerMinute
    ensures StatusOf(diffMs) == LiveNow
  {
  }

  /**
   * The clock case needs at least one whole minute left, so it never shows
   * 00:00:SS; it runs up to 24:00:59.
   */
  lemma ClockNeverZero(diffMs: int)
    requires StatusOf(diffMs).Clock?
    ensures StatusOf(diffMs).hours > 0 || StatusOf(diffMs).minutes > 0
    ensures StatusOf(diffMs).hours == 24 ==> StatusOf(diffMs).minutes == 0
  {
  }

  function StatusText(st: Status): (t: string)
    ensures (|t| >= 10 && t[..10] == "Starts in ") <==> st.DaysAway? || st.Clock?
  {
    match st
    case Ended => "Ended"
    case LiveNow => "Live now"
    case DaysAway(d, h) =>
      StartsIn(if d == 1 then "1 day " + Decimal(h) + "h" else Decimal(d) + " days")
    case Clock(h, m, s) => StartsIn(Pad2(h) + ":" + Pad2(m) + ":" + Pad2(s))
  }

  /** Each of the four cases has its own colour, so the colour tells the case. */
  function StatusColor(st: Status): (color: string)
    ensures color == Grey <==> st.Ended?
    ensures color == Green <==> st.LiveNow?
    ensures color == Blue <==> st.DaysAway?
    ensures color == Orange <==> st.Clock?
  {
    match st
    case Ended => Grey
    case LiveNow => Green
    case DaysAway(_, _) => Blue
    case Clock(_, _, _) => Orange
  }

  /** The text and colour updateCountdown sets for `diffMs = start - now`. */
  datatype Display = Display(text: string, color: string)

  function Countdown(diffMs: int): (d: Display)
    ensures DiffMinutes(diffMs) <= -(AssumedDurationMinutes as int) ==> d == Display("Ended", Grey)
    ensures -(AssumedDurationMinutes as int) < DiffMinutes(diffMs) <= 0 ==> d == Display("Live now", Green)
    ensures DiffMinutes(diffMs) > MinutesPerDay ==> d.color == Blue
    ensures 0 < DiffMinutes(diffMs) <= MinutesPerDay ==> d.color == Orange
  {
    var st := StatusOf(diffMs);
    Display(StatusText(st), StatusColor(st))
  }

  /**
   * Within a day, the text is "Starts in HH:MM:SS": three two-digit fields,
   * hours at most 24, minutes and seconds at most 59, which read back as the
   * time left with the milliseconds dropped.
   */
  lemma ClockReadsBack(diffMs: int)
    requires 0 < DiffMinutes(diffMs) <= MinutesPerDay
    ensures var t := Countdown(diffMs).text;
      && |t| == 18 && t[..10] == "Starts in " && t[12] == ':' && t[15] == ':'
      && IsDigits(t[10..12]) && IsDigits(t[13..15]) && IsDigits(t[16..18])
      && DigitsValue(t[10..12]) <= 24 && DigitsValue(t[13..15]) <= 59 && DigitsValue(t[16..18]) <= 59
      && DigitsValue(t[10..12]) * 3600000 + DigitsValue(t[13..15]) * MsPerMinute
         + DigitsValue(t[16..18]) * MsPerSecond == diffMs - diffMs % MsPerSecond
  {
    var st := StatusOf(diffMs);
    var t := Countdown(diffMs).text;
    assert t == StartsIn(Pad2(st.hours) + ":" + Pad2(st.minutes) + ":" + Pad2(st.seconds));
    assert t == "Starts in " + Pad2(st.hours) + ":" + Pad2(st.minutes) + ":" + Pad2(st.seconds);
    assert t[10..12] == Pad2(st.hours);
    assert t[13..15] == Pad2(st.minutes);
    assert t[16..18] == Pad2(st.seconds);
  }

  /** The days text reads back as its fields: the days written without a leading zero. */
  lemma DaysTextReadsBack(d: nat, h: nat)
    requires d >= 1
    ensures var t := StatusText(DaysAway(d, h));
      && (d == 1 ==> t == "Starts in 1 day " + Decimal(h) + "h" && DigitsValue(Decimal(h)) == h)
      && (d != 1 ==>
            var n := t[10..|t| - 5];
            && t == "Starts in " + n + " days" && IsDigits(n) && n[0] != '0' && DigitsValue(n) == d)
  {
    var t := StatusText(DaysAway(d, h));
    if d == 1 {
      DecimalRoundTrip(h);
      assert t == StartsIn("1 day " + Decimal(h) + "h");
    } else {
      DecimalRoundTrip(d);
      var rest := Decimal(d) + " days";
      assert t == StartsIn(rest);
      assert t[10..] == rest;
      assert t[10..|t| - 5] == Decimal(d);
    }
  }

  /** Beyond a day `updateCountdown` takes the days branch, with these two fields. */
  lemma StatusOfDays(diffMs: int)
    requires DiffMinutes(diffMs) > MinutesPerDay
    ensures StatusOf(diffMs)
         == DaysAway(DiffMinutes(diffMs) / MinutesPerDay, (DiffMinutes(diffMs) % MinutesPerDay) / MinutesPerHour)
  {
  }

  /** The days text for `m` whole minutes left, read back. */
  lemma MinutesTextReadsBack(m: int, t: string)
    requires m > MinutesPerDay
    requires t == StatusText(DaysAway(m / MinutesPerDay, (m % MinutesPerDay) / MinutesPerHour))
    ensures var days := m / MinutesPerDay;
      && days >= 1
      && (days == 1 ==>
            var hours := (m - MinutesPerDay) / MinutesPerHour;
            hours <= 23 && t == "Starts in 1 day " + Decimal(hours) + "h" && DigitsValue(Decimal(hours)) == hours)
      && (days != 1 ==>
            var n := t[10..|t| - 5];
            && t == "Starts in " + n + " days" && IsDigits(n) && n[0] != '0' && DigitsValue(n) == days)
  {
    DayFields(m);
    DaysTextReadsBack(m / MinutesPerDay, (m % MinutesPerDay) / MinutesPerHour);
  }

  /**
   * More than a day ahead: one day reads "Starts in 1 day Hh" with H the
   * hours past the whole day; more days read "Starts in N days" with N the
   * whole days left, written without a leading zero.
   */
  lemma DaysReadsBack(diffMs: int)
    requires DiffMinutes(diffMs) > MinutesPerDay
    ensures var days, t := DiffMinutes(diffMs) / MinutesPerDay, Countdown(diffMs).text;
      && days >= 1
      && (days == 1 ==>
            var hours := (DiffMinutes(diffMs) - MinutesPerDay) / MinutesPerHour;
            hours <= 23 && t == "Starts in 1 day " + Decimal(hours) + "h" && DigitsValue(Decimal(hours)) == hours)
      && (days != 1 ==>
            var n := t[10..|t| - 5];
            && t == "Starts in " + n + " days" && IsDigits(n) && n[0] != '0' && DigitsValue(n) == days)
  {
    var m, t := DiffMinutes(diffMs), Countdown(diffMs).text;
    StatusOfDays(diffMs);
    assert t == StatusText(DaysAway(m / MinutesPerDay, (m % MinutesPerDay) / MinutesPerHour));
    MinutesTextReadsBack(m, t);
  }

  /** Beyond a day there is at least one whole day, and with exactly one the spare minutes are those past it. */
  lemma DayFields(m: int)
    requires m > MinutesPerDay
    ensures m / MinutesPerDay >= 1
    ensures m / MinutesPerDay == 1 ==> m % MinutesPerDay == m - MinutesPerDay
  {
  }

  // -------------------------------------------------------------- buttons

  /**
   * `viewer` is the user id the browser stored, if any. A viewer shown as
   * joined would be refused by the join route; one not shown as joined is
   * admitted exactly when a seat is free.
   */
  predicate IsJoined(e: Event, viewer: Option<UserId>): (joined: bool)
    ensures joined ==> viewer.Some? && !Catalog.CanJoin(e, viewer.value)
    ensures viewer.Some? && !joined ==> (Catalog.CanJoin(e, viewer.value) <==> Catalog.FreeSeats(e) > 0)
  {
    viewer.Some? && viewer.value in e.attendees
  }

  /** The card's ownership check agrees with the guard of the update and delete routes. */
  predicate IsOwner(e: Event, viewer: Option<UserId>): (owner: bool)
    ensures owner <==> viewer.Some? && Catalog.IsOwner(e, viewer.value)
  {
    viewer.Some? && e.createdBy == viewer.value
  }

  datatype Buttons = Buttons(join: bool, leave: bool, delete: bool)

  /** Join or Leave, never both, by roster membership; Delete for the creator only. */
  function CardButtons(e: Event, viewer: Option<UserId>): (b: Buttons)
    ensures b.join != b.leave
    ensures b.leave <==> viewer.Some? && viewer.value in e.attendees
    ensures b.delete <==> viewer.Some? && viewer.value == e.createdBy
  {
    Buttons(!IsJoined(e, viewer), IsJoined(e, viewer), IsOwner(e, viewer))
  }

  /** After a successful join the joiner's card offers Leave; after leaving it offers Join. */
  lemma CardFollowsRoster(c: Catalog.Events, id: EventId, u: UserId)
    requires id in c
    ensures Catalog.Join(c, id, u).reply.Ok? ==>
      CardButtons(Catalog.Join(c, id, u).events[id], Some(u)).leave
    ensures CardButtons(Catalog.Leave(c, id, u).events[id], Some(u)).join
  {
  }

  /** The creator of a new event sees its Delete button; no one else does. */
  lemma CreatorSeesDelete(req: Catalog.CreateRequest, actor: UserId, viewer: UserId)
    requires Catalog.NewEvent(req, actor).Ok?
    ensures CardButtons(Catalog.NewEvent(req, actor).value, Some(viewer)).delete <==> viewer == actor
  {
  }
}
