/**
 * `AddressBook.get_upcoming_birthdays`: the contacts whose next birthday lies
 * in the inclusive window from today to today + 7 days, grouped by the day on
 * which to congratulate them (a Saturday or Sunday moves on to the Monday),
 * the groups sorted by day and the names within a group in book order.
 * `today` is a parameter instead of a reading of the system clock.
 */
module Upcoming {
  import opened Wrappers
  import opened Errors
  import opened Calendar
  import opened Records
  import opened Book
  import opened Sequences

  /** Length of the lookahead window in days; both ends are included. */
  const WindowDays := 7

  /** One entry of the returned mapping: a congratulation day and its names. */
  datatype Group = Group(day: Date, names: seq<string>)

  /**
   * The birthday's month and day in today's year, or in the following year when
   * that date is already behind today. Fails where `date.replace` raises.
   */
  function Anniversary(birth: CalendarDate, today: CalendarDate): (r: Result<CalendarDate, Error>)
    ensures r.Ok? ==> r.value.month == birth.month && r.value.day == birth.day
    ensures r.Ok? ==> LessEq(today, r.value)
    ensures r.Ok? ==> || r.value.year == today.year
                      || (r.value.year == today.year + 1 && Less(Date(today.year, birth.month, birth.day), today))
    ensures r.Err? <==>
              || (birth.month == 2 && birth.day == 29 && !IsLeapYear(today.year))
              || (&& Less(Date(today.year, birth.month, birth.day), today)
                  && (today.year == MaxYear || (birth.month == 2 && birth.day == 29 && !IsLeapYear(today.year + 1))))
  {
    match ReplaceYear(birth, today.year)
    case Err(e) => Err(e)
    case Ok(thisYear) =>
      if Less(thisYear, today) then
        match ReplaceYear(birth, today.year + 1)
        case Err(e) => Err(e)
        case Ok(nextYear) => Ok(nextYear)
      else
        Ok(thisYear)
  }

  /**
   * The day to congratulate on for a birthday falling on `c`: Saturday moves
   * two days on and Sunday one, both to the Monday. None where the move would
   * pass 31.12.9999.
   */
  function CongratulationDay(c: CalendarDate): (r: Option<CalendarDate>)
    ensures r.Some? ==> Weekday(r.value) < 5
    ensures Weekday(c) < 5 ==> r == Some(c)
    ensures Weekday(c) >= 5 && r.Some? ==>
              Weekday(r.value) == 0 && Ordinal(r.value) == Ordinal(c) + (7 - Weekday(c))
    ensures r.None? <==> Weekday(c) >= 5 && Ordinal(c) + (7 - Weekday(c)) > Ordinal(MaxDate)
  {
    var w := Weekday(c);
    if w == 5 || w == 6 then
      match AddDays(c, 7 - w)
      case None => None
      case Some(d) =>
        WeekdayShift(c, d, 7 - w);
        Some(d)
    else
      Some(c)
  }

  /**
   * One pass of the loop body for `rec`: its congratulation day when its
   * birthday is in the window from `today` to `end`, None when it is not or
   * the record has no birthday, or the error the loop body raises.
   */
  function Due(rec: Record, today: CalendarDate, end: CalendarDate): (r: Result<Option<Date>, Error>)
    ensures rec.birthday.None? ==> r == Ok(None)
    ensures r.Ok? && r.value.Some? ==>
              var d := r.value.value;
              && ValidDate(d) && Weekday(d) < 5
              && Ordinal(today) <= Ordinal(d) <= Ordinal(end) + 2
    ensures r.Err? <==>
              && rec.birthday.Some?
              && var a := Anniversary(rec.birthday.value, today);
              && (a.Err? || (Ordinal(a.value) <= Ordinal(end) && CongratulationDay(a.value).None?))
    ensures r.Err? ==>
              && rec.birthday.Some?
              && var a := Anniversary(rec.birthday.value, today);
              && r.error == (if a.Err? then a.error else DateOverflow)
  {
    match rec.birthday
    case None => Ok(None)
    case Some(birth) =>
      match Anniversary(birth, today)
      case Err(e) => Err(e)
      case Ok(c) =>
        LessIffOrdinal(today, c);
        LessIffOrdinal(c, end);
        if LessEq(today, c) && LessEq(c, end) then
          match CongratulationDay(c)
          case None => Err(DateOverflow)
          case Some(g) => Ok(Some(g))
        else
          Ok(None)
  }

  /**
   * What `Due` means in day numbers: a record is due on `d` exactly when it has
   * a birthday whose next anniversary lies from today to `end` and moves to `d`.
   */
  lemma DueIff(rec: Record, today: CalendarDate, end: CalendarDate, d: Date)
    ensures Due(rec, today, end) == Ok(Some(d)) <==>
              && rec.birthday.Some?
              && var a := Anniversary(rec.birthday.value, today);
              && a.Ok?
              && Ordinal(today) <= Ordinal(a.value) <= Ordinal(end)
              && CongratulationDay(a.value) == Some(d)
  {
    if rec.birthday.Some? {
      var a := Anniversary(rec.birthday.value, today);
      if a.Ok? {
        LessIffOrdinal(today, a.value);
        LessIffOrdinal(a.value, end);
      }
    }
  }

  /** A record as the loop sees it: its name and what its loop body yields. */
  type Entry = (string, Result<Option<Date>, Error>)

  function Entries(rs: seq<Record>, today: CalendarDate, end: CalendarDate): (es: seq<Entry>)
    ensures |es| == |rs|
    ensures forall k :: 0 <= k < |rs| ==> es[k] == (rs[k].name, Due(rs[k], today, end))
  {
    seq(|rs|, k requires 0 <= k < |rs| => (rs[k].name, Due(rs[k], today, end)))
  }

  /** The names, in book order, of the entries due on `d`. */
  function DueNames(es: seq<Entry>, d: Date): seq<string> {
    if |es| == 0 then []
    else DueNames(es[..|es| - 1], d) + (if es[|es| - 1].1 == Ok(Some(d)) then [es[|es| - 1].0] else [])
  }

  /** A name is listed for `d` exactly when some entry carrying it is due on `d`. */
  lemma {:induction false} DueNamesMembership(es: seq<Entry>, d: Date, n: string)
    ensures n in DueNames(es, d) <==> exists k :: 0 <= k < |es| && es[k] == (n, Ok(Some(d)))
  {
    if |es| > 0 {
      var pre := es[..|es| - 1];
      DueNamesMembership(pre, d, n);
      if exists k :: 0 <= k < |es| && es[k] == (n, Ok(Some(d))) {
        var k :| 0 <= k < |es| && es[k] == (n, Ok(Some(d)));
        if k < |pre| {
          assert pre[k] == es[k];
        }
      }
      if exists k :: 0 <= k < |pre| && pre[k] == (n, Ok(Some(d))) {
        var k :| 0 <= k < |pre| && pre[k] == (n, Ok(Some(d)));
        assert es[k] == pre[k];
      }
    }
  }

  predicate DistinctNames(es: seq<Entry>) {
    forall i, j :: 0 <= i < j < |es| ==> es[i].0 != es[j].0
  }

  predicate NoDuplicates(ns: seq<string>) {
    forall i, j :: 0 <= i < j < |ns| ==> ns[i] != ns[j]
  }

  /** Entries with distinct names list no name twice for one day. */
  lemma {:induction false} DueNamesDistinct(es: seq<Entry>, d: Date)
    requires DistinctNames(es)
    ensures NoDuplicates(DueNames(es, d))
  {
    if |es| > 0 {
      var pre := es[..|es| - 1];
      var last := es[|es| - 1];
      DueNamesDistinct(pre, d);
      var ns := DueNames(pre, d);
      if last.1 == Ok(Some(d)) {
        DueNamesMembership(pre, d, last.0);
        forall k | 0 <= k < |pre|
          ensures pre[k].0 != last.0
        {
          assert pre[k] == es[k];
        }
        assert last.0 !in ns;
        var ns' := ns + [last.0];
        assert DueNames(es, d) == ns';
        forall i, j | 0 <= i < j < |ns'|
          ensures ns'[i] != ns'[j]
        {
          if j == |ns| {
            assert ns'[i] == ns[i] && ns[i] in ns && ns'[j] == last.0;
          } else {
            assert ns'[i] == ns[i] && ns'[j] == ns[j];
          }
        }
      } else {
        assert DueNames(es, d) == ns;
      }
    }
  }

  /** The names paired with day `d`, in order. */
  function NamesOn(ps: seq<(Date, string)>, d: Date): seq<string> {
    if |ps| == 0 then []
    else NamesOn(ps[..|ps| - 1], d) + (if ps[|ps| - 1].0 == d then [ps[|ps| - 1].1] else [])
  }

  /**
   * The loop over the book: every due entry contributes the pair
   * (congratulation day, name); the first entry whose body raised aborts it.
   */
  function Scan(es: seq<Entry>): (r: Result<seq<(Date, string)>, Error>)
    ensures r.Ok? <==> forall k :: 0 <= k < |es| ==> es[k].1.Ok?
    ensures r.Err? ==> exists k :: && 0 <= k < |es| && es[k].1 == Err(r.error)
                                   && forall j :: 0 <= j < k ==> es[j].1.Ok?
    ensures r.Ok? ==> forall d :: NamesOn(r.value, d) == DueNames(es, d)
  {
    if |es| == 0 then Ok([])
    else
      var pre := es[..|es| - 1];
      var (name, outcome) := es[|es| - 1];
      match Scan(pre)
      case Err(e) =>
        assert forall j :: 0 <= j < |pre| ==> pre[j] == es[j];
        Err(e)
      case Ok(ps) =>
        assert forall j :: 0 <= j < |pre| ==> pre[j] == es[j];
        match outcome
        case Err(e) => Err(e)
        case Ok(None) => Ok(ps)
        case Ok(Some(d)) =>
          var ps' := ps + [(d, name)];
          assert ps'[..|ps'| - 1] == ps;
          Ok(ps')
  }

  function Days(gs: seq<Group>): (ds: seq<Date>)
    ensures |ds| == |gs| && forall i :: 0 <= i < |gs| ==> ds[i] == gs[i].day
  {
    seq(|gs|, i requires 0 <= i < |gs| => gs[i].day)
  }

  predicate DistinctDays(gs: seq<Group>) {
    forall i, j :: 0 <= i < j < |gs| ==> gs[i].day != gs[j].day
  }

  /** `result[d].append(n)` on a `defaultdict(list)`: a new day is added at the end. */
  function AddToGroups(gs: seq<Group>, d: Date, n: string): seq<Group> {
    match IndexOf(Days(gs), d)
    case Some(i) => gs[i := Group(d, gs[i].names + [n])]
    case None => gs + [Group(d, [n])]
  }

  /** What it means for `gs` to be the dictionary built from the pairs `ps`. */
  ghost predicate GroupsOf(gs: seq<Group>, ps: seq<(Date, string)>) {
    && DistinctDays(gs)
    && (forall i :: 0 <= i < |gs| ==> gs[i].names == NamesOn(ps, gs[i].day) && gs[i].names != [])
    && (forall d :: d !in Days(gs) ==> NamesOn(ps, d) == [])
  }

  /** Appending one pair to the loop's pairs is one `result[d].append(n)` on the dictionary. */
  lemma AddToGroupsStep(gs: seq<Group>, ps: seq<(Date, string)>, d: Date, n: string)
    requires GroupsOf(gs, ps)
    ensures GroupsOf(AddToGroups(gs, d, n), ps + [(d, n)])
  {
    var ps' := ps + [(d, n)];
    assert ps'[..|ps'| - 1] == ps;
    assert forall e :: NamesOn(ps', e) == NamesOn(ps, e) + (if e == d then [n] else []);
    var after := AddToGroups(gs, d, n);
    match IndexOf(Days(gs), d)
    case Some(i) =>
      assert Days(after) == Days(gs);
    case None =>
      assert Days(after) == Days(gs) + [d];
  }

  /**
   * The dictionary the loop builds from its pairs: one group per distinct day,
   * holding exactly the names paired with that day, in order.
   */
  function GroupByDay(ps: seq<(Date, string)>): (gs: seq<Group>)
    ensures DistinctDays(gs)
    ensures forall i :: 0 <= i < |gs| ==> gs[i].names == NamesOn(ps, gs[i].day) && gs[i].names != []
    ensures forall d :: d !in Days(gs) ==> NamesOn(ps, d) == []
  {
    if |ps| == 0 then []
    else
      var pre := ps[..|ps| - 1];
      var (d, n) := ps[|ps| - 1];
      var before := GroupByDay(pre);
      AddToGroupsStep(before, pre, d, n);
      assert pre + [(d, n)] == ps;
      AddToGroups(before, d, n)
  }

  predicate StrictlySorted(gs: seq<Group>) {
    forall i, j :: 0 <= i < j < |gs| ==> Less(gs[i].day, gs[j].day)
  }

  function Insert(gs: seq<Group>, g: Group): (r: seq<Group>)
    requires StrictlySorted(gs)
    requires forall x :: x in gs ==> x.day != g.day
    ensures StrictlySorted(r)
    ensures multiset(r) == multiset(gs) + multiset{g}
  {
    if |gs| == 0 then [g]
    else if Less(g.day, gs[0].day) then [g] + gs
    else
      var rest := Insert(gs[1..], g);
      assert gs == [gs[0]] + gs[1..];
      forall x | x in rest
        ensures Less(gs[0].day, x.day)
      {
        assert x in multiset(rest);
        if x != g {
          assert x in multiset(gs[1..]);
        }
      }
      [gs[0]] + rest
  }

  /** `sorted(result.items(), key=date)`: the same groups, in ascending day order. */
  function SortByDay(gs: seq<Group>): (r: seq<Group>)
    requires DistinctDays(gs)
    ensures StrictlySorted(r)
    ensures multiset(r) == multiset(gs)
  {
    if |gs| == 0 then []
    else
      var rest := SortByDay(gs[1..]);
      assert gs == [gs[0]] + gs[1..];
      forall x | x in rest
        ensures x.day != gs[0].day
      {
        assert x in multiset(rest);
        assert x in gs[1..];
      }
      Insert(rest, gs[0])
  }

  /**
   * Grouping then sorting the loop's pairs yields strictly ascending days,
   * each with exactly the due names in book order, and a group for every day
   * some entry is due on.
   */
  lemma GroupAndSort(es: seq<Entry>)
    requires Scan(es).Ok?
    ensures var gs := SortByDay(GroupByDay(Scan(es).value));
            && StrictlySorted(gs)
            && (forall i :: 0 <= i < |gs| ==> gs[i].names == DueNames(es, gs[i].day) && gs[i].names != [])
            && (forall k, d :: 0 <= k < |es| && es[k].1 == Ok(Some(d)) ==> d in Days(gs))
  {
    var ps := Scan(es).value;
    var groups := GroupByDay(ps);
    var sorted := SortByDay(groups);
    forall i | 0 <= i < |sorted|
      ensures sorted[i].names == DueNames(es, sorted[i].day) && sorted[i].names != []
    {
      assert sorted[i] in multiset(groups);
    }
    forall k, d | 0 <= k < |es| && es[k].1 == Ok(Some(d))
      ensures d in Days(sorted)
    {
      DueNamesMembership(es, d, es[k].0);
      assert d in Days(groups);
      var i :| 0 <= i < |groups| && groups[i].day == d;
      assert groups[i] in multiset(sorted);
    }
  }

  /**
   * `get_upcoming_birthdays(today)`. Succeeds exactly when today + 7 days is
   * representable and no record's loop body raises. The groups are in strictly
   * ascending day order, each holds exactly the names (in book order) of the
   * records due on its day, and every day some record is due on has a group.
   */
  function UpcomingBirthdays(b: AddressBook, today: CalendarDate): (r: Result<seq<Group>, Error>)
    ensures r.Ok? <==>
              && AddDays(today, WindowDays).Some?
              && forall k :: 0 <= k < |b.records| ==> Due(b.records[k], today, AddDays(today, WindowDays).value).Ok?
    ensures AddDays(today, WindowDays).None? ==> r == Err(DateOverflow)
    ensures r.Ok? ==> StrictlySorted(r.value)
    ensures r.Ok? ==>
              var es := Entries(b.records, today, AddDays(today, WindowDays).value);
              forall i :: 0 <= i < |r.value| ==>
                r.value[i].names == DueNames(es, r.value[i].day) && r.value[i].names != []
    ensures r.Ok? ==>
              var es := Entries(b.records, today, AddDays(today, WindowDays).value);
              forall k, d :: 0 <= k < |es| && es[k].1 == Ok(Some(d)) ==> d in Days(r.value)
  {
    match AddDays(today, WindowDays)
    case None => Err(DateOverflow)
    case Some(end) =>
      var es := Entries(b.records, today, end);
      match Scan(es)
      case Err(e) => Err(e)
      case Ok(ps) =>
        GroupAndSort(es);
        Ok(SortByDay(GroupByDay(ps)))
  }

  /**
   * When the window end is representable and the query fails, it fails with
   * the error of the first record in book order whose loop body raises.
   */
  lemma UpcomingFirstError(b: AddressBook, today: CalendarDate)
    ensures var r := UpcomingBirthdays(b, today);
            r.Err? && AddDays(today, WindowDays).Some? ==>
              var end := AddDays(today, WindowDays).value;
              exists k :: && 0 <= k < |b.records| && Due(b.records[k], today, end) == Err(r.error)
                          && forall j :: 0 <= j < k ==> Due(b.records[j], today, end).Ok?
  {
    var r := UpcomingBirthdays(b, today);
    if r.Err? && AddDays(today, WindowDays).Some? {
      var end := AddDays(today, WindowDays).value;
      var es := Entries(b.records, today, end);
      assert Scan(es).Err? && Scan(es).error == r.error;
      var k :| && 0 <= k < |es| && es[k].1 == Err(r.error)
               && forall j :: 0 <= j < k ==> es[j].1.Ok?;
      assert Due(b.records[k], today, end) == Err(r.error);
      forall j | 0 <= j < k
        ensures Due(b.records[j], today, end).Ok?
      {
        assert es[j].1.Ok?;
      }
    }
  }

  /**
   * A name is listed under day `d` exactly when the book holds a record with
   * that name that is due on `d`.
   */
  lemma UpcomingMembership(b: AddressBook, today: CalendarDate, d: Date, n: string)
    ensures UpcomingBirthdays(b, today).Ok? ==>
            var gs := UpcomingBirthdays(b, today).value;
            var end := AddDays(today, WindowDays).value;
            (exists i :: 0 <= i < |gs| && gs[i].day == d && n in gs[i].names) <==>
            (exists k :: 0 <= k < |b.records| && b.records[k].name == n && Due(b.records[k], today, end) == Ok(Some(d)))
  {
    if UpcomingBirthdays(b, today).Err? {
      return;
    }
    var gs := UpcomingBirthdays(b, today).value;
    var end := AddDays(today, WindowDays).value;
    var es := Entries(b.records, today, end);
    DueNamesMembership(es, d, n);
    if exists k :: 0 <= k < |b.records| && b.records[k].name == n && Due(b.records[k], today, end) == Ok(Some(d)) {
      var k :| 0 <= k < |b.records| && b.records[k].name == n && Due(b.records[k], today, end) == Ok(Some(d));
      assert es[k] == (n, Ok(Some(d)));
      assert d in Days(gs);
    }
  }

  /**
   * Every congratulation day returned is a weekday between today and
   * today + 9 days: the window reaches today + 7 and a weekend moves at most
   * two days on.
   */
  lemma UpcomingDaysInRange(b: AddressBook, today: CalendarDate)
    ensures UpcomingBirthdays(b, today).Ok? ==>
            var gs := UpcomingBirthdays(b, today).value;
            forall i :: 0 <= i < |gs| ==>
              && ValidDate(gs[i].day) && Weekday(gs[i].day) < 5
              && Ordinal(today) <= Ordinal(gs[i].day) <= Ordinal(today) + WindowDays + 2
  {
    if UpcomingBirthdays(b, today).Err? {
      return;
    }
    var gs := UpcomingBirthdays(b, today).value;
    var end := AddDays(today, WindowDays).value;
    var es := Entries(b.records, today, end);
    forall k, d | 0 <= k < |es| && es[k].1 == Ok(Some(d))
      ensures InWindow(d, today, end)
    {
      assert Due(b.records[k], today, end) == Ok(Some(d));
    }
    GroupDaysInWindow(es, gs, today, end);
  }

  /** A congratulation day as `Due` bounds it: a weekday from today to two days past `end`. */
  ghost predicate InWindow(d: Date, today: CalendarDate, end: CalendarDate) {
    ValidDate(d) && Weekday(d) < 5 && Ordinal(today) <= Ordinal(d) <= Ordinal(end) + 2
  }

  /** Every day of a group of due names is a day some entry is due on, hence in the window. */
  lemma GroupDaysInWindow(es: seq<Entry>, gs: seq<Group>, today: CalendarDate, end: CalendarDate)
    requires forall i :: 0 <= i < |gs| ==> gs[i].names == DueNames(es, gs[i].day) && gs[i].names != []
    requires forall k, d :: 0 <= k < |es| && es[k].1 == Ok(Some(d)) ==> InWindow(d, today, end)
    ensures forall i :: 0 <= i < |gs| ==> InWindow(gs[i].day, today, end)
  {
    forall i | 0 <= i < |gs|
      ensures InWindow(gs[i].day, today, end)
    {
      DueNamesMembership(es, gs[i].day, gs[i].names[0]);
    }
  }

  /** In a valid book every name is listed at most once in the whole result. */
  lemma UpcomingNamesOnce(b: AddressBook, today: CalendarDate)
    requires Valid(b)
    ensures UpcomingBirthdays(b, today).Ok? ==>
            var gs := UpcomingBirthdays(b, today).value;
            forall i, j, k, l ::
              (&& 0 <= i < |gs| && 0 <= j < |gs| && 0 <= k < |gs[i].names| && 0 <= l < |gs[j].names|
               && gs[i].names[k] == gs[j].names[l])
              ==> i == j && k == l
  {
    if UpcomingBirthdays(b, today).Err? {
      return;
    }
    var gs := UpcomingBirthdays(b, today).value;
    var end := AddDays(today, WindowDays).value;
    var es := Entries(b.records, today, end);
    assert DistinctNames(es);
    forall i, j, k, l |
      0 <= i < |gs| && 0 <= j < |gs| && 0 <= k < |gs[i].names| && 0 <= l < |gs[j].names|
      && gs[i].names[k] == gs[j].names[l]
      ensures i == j && k == l
    {
      var n := gs[i].names[k];
      DueNamesMembership(es, gs[i].day, n);
      DueNamesMembership(es, gs[j].day, n);
      var ki :| 0 <= ki < |es| && es[ki] == (n, Ok(Some(gs[i].day)));
      var kj :| 0 <= kj < |es| && es[kj] == (n, Ok(Some(gs[j].day)));
      assert ki == kj;
      assert gs[i].day == gs[j].day;
      DueNamesDistinct(es, gs[i].day);
    }
  }

  /**
   * A 29 February birthday has an anniversary only when today's year is a
   * leap year and today is not past 29 February; on every other day the
   * `date.replace` call raises and with it the whole query.
   */
  lemma LeapDayAnniversary(birth: CalendarDate, today: CalendarDate)
    requires birth.month == 2 && birth.day == 29
    ensures Anniversary(birth, today).Ok? <==> IsLeapYear(today.year) && LessEq(today, Date(today.year, 2, 29))
    ensures Anniversary(birth, today).Err? ==> Anniversary(birth, today).error == DayOutOfRange
  {
  }
}
