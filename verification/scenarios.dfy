/** Concrete runs of the birthday query on fixed dates. */
module Scenarios {
  import opened Wrappers
  import opened Errors
  import opened Calendar
  import opened Records
  import opened Book
  import opened Upcoming
  import opened Sequences

  /** `d + timedelta(days=n)` on concrete dates, settled through day numbers. */
  lemma DaysLater(d: CalendarDate, n: nat, e: CalendarDate)
    requires Ordinal(e) == Ordinal(d) + n
    ensures AddDays(d, n) == Some(e)
  {
    OrdinalAtMostMax(e);
    LessIffOrdinal(AddDays(d, n).value, e);
  }

  /** The grouping and sorting of one entry due on `d`. */
  lemma OneEntry(n: string, d: Date)
    ensures var es: seq<Entry> := [(n, Ok(Some(d)))];
            Scan(es).Ok? && SortByDay(GroupByDay(Scan(es).value)) == [Group(d, [n])]
  {
    var es: seq<Entry> := [(n, Ok(Some(d)))];
    assert es[..0] == [];
    assert Scan(es[..0]) == Ok([]);
    var ps := [(d, n)];
    assert Scan(es).Ok? && Scan(es).value == ps;
    assert ps[..0] == [];
    var gs := [Group(d, [n])];
    assert GroupByDay(ps) == gs;
    assert gs[1..] == [];
  }

  /** The loop over two due entries pairs each day with its name, in book order. */
  lemma ScanTwo(na: string, da: Date, nb: string, db: Date)
    ensures Scan([(na, Ok(Some(da))), (nb, Ok(Some(db)))]) == Ok([(da, na), (db, nb)])
  {
    var es: seq<Entry> := [(na, Ok(Some(da))), (nb, Ok(Some(db)))];
    assert es[..1] == [(na, Ok(Some(da)))];
    assert es[..1][..0] == [];
    assert Scan(es[..1][..0]) == Ok([]);
    assert Scan(es[..1]).Ok? && Scan(es[..1]).value == [(da, na)];
    assert Scan(es).Ok? && Scan(es).value == [(da, na), (db, nb)];
  }

  /** Two pairs on different days make two groups, in order of first appearance. */
  lemma GroupTwo(na: string, da: Date, nb: string, db: Date)
    requires da != db
    ensures GroupByDay([(da, na), (db, nb)]) == [Group(da, [na]), Group(db, [nb])]
  {
    var ps := [(da, na), (db, nb)];
    assert ps[..1] == [(da, na)];
    assert ps[..1][..0] == [];
    var g0 := [Group(da, [na])];
    assert GroupByDay(ps[..1]) == g0;
    assert Days(g0) == [da];
    assert IndexOf(Days(g0), db) == None;
  }

  /** Sorting two groups whose days are out of order swaps them. */
  lemma SortTwo(a: Group, b: Group)
    requires Less(b.day, a.day)
    ensures SortByDay([a, b]) == [b, a]
  {
    var gs := [a, b];
    assert gs[1..] == [b];
    assert [b][1..] == [];
    assert SortByDay([b]) == [b];
    assert Insert([b], a) == [b] + Insert([], a);
  }

  /** The grouping and sorting of two entries due on different days, the later one first. */
  lemma TwoEntriesReversed(na: string, da: Date, nb: string, db: Date)
    requires Less(db, da)
    ensures var es: seq<Entry> := [(na, Ok(Some(da))), (nb, Ok(Some(db)))];
            Scan(es).Ok? && SortByDay(GroupByDay(Scan(es).value)) == [Group(db, [nb]), Group(da, [na])]
  {
    ScanTwo(na, da, nb, db);
    GroupTwo(na, da, nb, db);
    SortTwo(Group(da, [na]), Group(db, [nb]));
  }

  /** The query once the window end and the loop's entries are known. */
  lemma QueryFromEntries(b: AddressBook, today: CalendarDate, end: CalendarDate, es: seq<Entry>)
    requires AddDays(today, WindowDays) == Some(end)
    requires Entries(b.records, today, end) == es
    ensures UpcomingBirthdays(b, today)
            == match Scan(es) case Err(e) => Err(e) case Ok(ps) => Ok(SortByDay(GroupByDay(ps)))
  {
  }

  /** The loop's view of a book of one record. */
  lemma EntriesOne(r: Record, today: CalendarDate, end: CalendarDate)
    ensures Entries([r], today, end) == [(r.name, Due(r, today, end))]
  {
  }

  /** The loop's view of a book of two records. */
  lemma EntriesTwo(ra: Record, rb: Record, today: CalendarDate, end: CalendarDate)
    ensures Entries([ra, rb], today, end) == [(ra.name, Due(ra, today, end)), (rb.name, Due(rb, today, end))]
  {
  }

  /** A book of one record due on `g` lists that record alone under `g`. */
  lemma OneRecordDue(rec: Record, today: CalendarDate, end: CalendarDate, g: Date)
    requires AddDays(today, WindowDays) == Some(end)
    requires Due(rec, today, end) == Ok(Some(g))
    ensures UpcomingBirthdays(AddressBook([rec]), today) == Ok([Group(g, [rec.name])])
  {
    var es: seq<Entry> := [(rec.name, Ok(Some(g)))];
    EntriesOne(rec, today, end);
    OneEntry(rec.name, g);
    QueryFromEntries(AddressBook([rec]), today, end, es);
  }

  /** A book of one record that is not due yields no groups. */
  lemma OneRecordNotDue(rec: Record, today: CalendarDate, end: CalendarDate)
    requires AddDays(today, WindowDays) == Some(end)
    requires Due(rec, today, end) == Ok(None)
    ensures UpcomingBirthdays(AddressBook([rec]), today) == Ok([])
  {
    var es: seq<Entry> := [(rec.name, Ok(None))];
    EntriesOne(rec, today, end);
    assert es[..0] == [];
    assert Scan(es[..0]) == Ok([]);
    assert Scan(es) == Ok([]);
    QueryFromEntries(AddressBook([rec]), today, end, es);
  }

  /** A book of one record whose loop body raises makes the query raise the same error. */
  lemma OneRecordRaises(rec: Record, today: CalendarDate, end: CalendarDate, e: Error)
    requires AddDays(today, WindowDays) == Some(end)
    requires Due(rec, today, end) == Err(e)
    ensures UpcomingBirthdays(AddressBook([rec]), today) == Err(e)
  {
    var es: seq<Entry> := [(rec.name, Err(e))];
    EntriesOne(rec, today, end);
    assert es[..0] == [];
    assert Scan(es[..0]) == Ok([]);
    QueryFromEntries(AddressBook([rec]), today, end, es);
  }

  /** Two records due on different days, the second one earlier, come out in day order. */
  lemma TwoRecordsDueReversed(ra: Record, rb: Record, today: CalendarDate, end: CalendarDate, ga: Date, gb: Date)
    requires AddDays(today, WindowDays) == Some(end)
    requires Due(ra, today, end) == Ok(Some(ga)) && Due(rb, today, end) == Ok(Some(gb))
    requires Less(gb, ga)
    ensures UpcomingBirthdays(AddressBook([ra, rb]), today) == Ok([Group(gb, [rb.name]), Group(ga, [ra.name])])
  {
    var es: seq<Entry> := [(ra.name, Ok(Some(ga))), (rb.name, Ok(Some(gb)))];
    EntriesTwo(ra, rb, today, end);
    TwoEntriesReversed(ra.name, ga, rb.name, gb);
    QueryFromEntries(AddressBook([ra, rb]), today, end, es);
  }

  /** A Saturday birthday is congratulated two days later. */
  lemma SaturdayToMonday(c: CalendarDate, g: CalendarDate)
    requires Weekday(c) == 5 && Ordinal(g) == Ordinal(c) + 2
    ensures CongratulationDay(c) == Some(g)
  {
    DaysLater(c, 2, g);
  }

  /** A record is due on `g` once its anniversary `c` is inside the window and moves to `g`. */
  lemma DueOn(rec: Record, today: CalendarDate, end: CalendarDate, c: CalendarDate, g: Date)
    requires rec.birthday.Some? && Anniversary(rec.birthday.value, today) == Ok(c)
    requires Ordinal(today) <= Ordinal(c) <= Ordinal(end)
    requires CongratulationDay(c) == Some(g)
    ensures Due(rec, today, end) == Ok(Some(g))
  {
    DueIff(rec, today, end, g);
  }

  lemma MondayTenthJuneWindow()
    ensures AddDays(Date(2024, 6, 10), WindowDays) == Some(Date(2024, 6, 17))
  {
    DaysLater(Date(2024, 6, 10), WindowDays, Date(2024, 6, 17));
  }

  lemma AnnDueTenthJune()
    ensures Due(Record("Ann", [], Some(Date(1990, 6, 15))), Date(2024, 6, 10), Date(2024, 6, 17))
            == Ok(Some(Date(2024, 6, 17)))
  {
    assert Anniversary(Date(1990, 6, 15), Date(2024, 6, 10)) == Ok(Date(2024, 6, 15));
    assert Weekday(Date(2024, 6, 15)) == 5;
    SaturdayToMonday(Date(2024, 6, 15), Date(2024, 6, 17));
    DueOn(Record("Ann", [], Some(Date(1990, 6, 15))), Date(2024, 6, 10), Date(2024, 6, 17),
          Date(2024, 6, 15), Date(2024, 6, 17));
  }

  lemma BobDueTenthJune()
    ensures Due(Record("Bob", [], Some(Date(1985, 6, 10))), Date(2024, 6, 10), Date(2024, 6, 17))
            == Ok(Some(Date(2024, 6, 10)))
  {
    assert Anniversary(Date(1985, 6, 10), Date(2024, 6, 10)) == Ok(Date(2024, 6, 10));
    assert Weekday(Date(2024, 6, 10)) == 0;
    DueOn(Record("Bob", [], Some(Date(1985, 6, 10))), Date(2024, 6, 10), Date(2024, 6, 17),
          Date(2024, 6, 10), Date(2024, 6, 10));
  }

  /**
   * Today is Monday 10.06.2024 and the contact was born on 15.06.1990. The
   * birthday falls on Saturday 15.06.2024, inside the window, so the
   * congratulation moves to Monday 17.06.2024.
   */
  lemma SaturdayMovesToMonday()
    ensures UpcomingBirthdays(AddressBook([Record("Ann", [], Some(Date(1990, 6, 15)))]), Date(2024, 6, 10))
            == Ok([Group(Date(2024, 6, 17), ["Ann"])])
  {
    MondayTenthJuneWindow();
    AnnDueTenthJune();
    OneRecordDue(Record("Ann", [], Some(Date(1990, 6, 15))), Date(2024, 6, 10), Date(2024, 6, 17), Date(2024, 6, 17));
  }

  lemma SaturdayDecemberWindow()
    ensures AddDays(Date(2024, 12, 28), WindowDays) == Some(Date(2025, 1, 4))
  {
    DaysLater(Date(2024, 12, 28), WindowDays, Date(2025, 1, 4));
  }

  lemma AnnDueNextYear()
    ensures Due(Record("Ann", [], Some(Date(1990, 1, 4))), Date(2024, 12, 28), Date(2025, 1, 4))
            == Ok(Some(Date(2025, 1, 6)))
  {
    assert Anniversary(Date(1990, 1, 4), Date(2024, 12, 28)) == Ok(Date(2025, 1, 4));
    assert Weekday(Date(2025, 1, 4)) == 5;
    SaturdayToMonday(Date(2025, 1, 4), Date(2025, 1, 6));
    DueOn(Record("Ann", [], Some(Date(1990, 1, 4))), Date(2024, 12, 28), Date(2025, 1, 4),
          Date(2025, 1, 4), Date(2025, 1, 6));
  }

  /**
   * Today is Saturday 28.12.2024 and the contact was born on 04.01.1990. This
   * year's date has passed, so next year's is used: Saturday 04.01.2025, the
   * last day of the window. The window test comes before the weekend move,
   * so the congratulation is on Monday 06.01.2025, nine days from today.
   */
  lemma NextYearAtWindowEnd()
    ensures UpcomingBirthdays(AddressBook([Record("Ann", [], Some(Date(1990, 1, 4)))]), Date(2024, 12, 28))
            == Ok([Group(Date(2025, 1, 6), ["Ann"])])
  {
    SaturdayDecemberWindow();
    AnnDueNextYear();
    OneRecordDue(Record("Ann", [], Some(Date(1990, 1, 4))), Date(2024, 12, 28), Date(2025, 1, 4), Date(2025, 1, 6));
  }

  lemma AnnNotDueEightDaysOut()
    ensures Due(Record("Ann", [], Some(Date(1990, 1, 5))), Date(2024, 12, 28), Date(2025, 1, 4)) == Ok(None)
  {
    var c := Date(2025, 1, 5);
    assert Anniversary(Date(1990, 1, 5), Date(2024, 12, 28)) == Ok(c);
    assert Ordinal(c) == Ordinal(Date(2024, 12, 28)) + 8;
    DueIff(Record("Ann", [], Some(Date(1990, 1, 5))), Date(2024, 12, 28), Date(2025, 1, 4), Date(2025, 1, 6));
  }

  /** One day past the window (Sunday 05.01.2025 seen from 28.12.2024) is not listed. */
  lemma DayAfterWindowEnd()
    ensures UpcomingBirthdays(AddressBook([Record("Ann", [], Some(Date(1990, 1, 5)))]), Date(2024, 12, 28))
            == Ok([])
  {
    SaturdayDecemberWindow();
    AnnNotDueEightDaysOut();
    OneRecordNotDue(Record("Ann", [], Some(Date(1990, 1, 5))), Date(2024, 12, 28), Date(2025, 1, 4));
  }

  /**
   * Groups come out sorted by day whatever the book order: a contact due on
   * 17.06 entered before one due on 10.06 is still listed after it.
   */
  lemma SortedRegardlessOfBookOrder()
    ensures UpcomingBirthdays(AddressBook([Record("Ann", [], Some(Date(1990, 6, 15))),
                                           Record("Bob", [], Some(Date(1985, 6, 10)))]), Date(2024, 6, 10))
            == Ok([Group(Date(2024, 6, 10), ["Bob"]), Group(Date(2024, 6, 17), ["Ann"])])
  {
    MondayTenthJuneWindow();
    AnnDueTenthJune();
    BobDueTenthJune();
    TwoRecordsDueReversed(Record("Ann", [], Some(Date(1990, 6, 15))), Record("Bob", [], Some(Date(1985, 6, 10))),
                          Date(2024, 6, 10), Date(2024, 6, 17), Date(2024, 6, 17), Date(2024, 6, 10));
  }

  lemma TenthJune2023Window()
    ensures AddDays(Date(2023, 6, 10), WindowDays) == Some(Date(2023, 6, 17))
  {
    DaysLater(Date(2023, 6, 10), WindowDays, Date(2023, 6, 17));
  }

  lemma LeapDayRaisesIn2023()
    ensures Due(Record("Ann", [], Some(Date(2000, 2, 29))), Date(2023, 6, 10), Date(2023, 6, 17))
            == Err(DayOutOfRange)
  {
    LeapDayAnniversary(Date(2000, 2, 29), Date(2023, 6, 10));
  }

  /** In 2023 a 29 February birthday makes `date.replace` raise, and the whole query with it. */
  lemma LeapDayBirthdayRaises()
    ensures UpcomingBirthdays(AddressBook([Record("Ann", [], Some(Date(2000, 2, 29)))]), Date(2023, 6, 10))
            == Err(DayOutOfRange)
  {
    TenthJune2023Window();
    LeapDayRaisesIn2023();
    OneRecordRaises(Record("Ann", [], Some(Date(2000, 2, 29))), Date(2023, 6, 10), Date(2023, 6, 17), DayOutOfRange);
  }

  /** Adding a second record under the same name replaces the first one whole. */
  lemma AddRecordTwiceOverwrites()
    ensures var first := Record("Ann", ["1111111111"], None);
            var second := Record("Ann", [], None);
            var b := AddRecord(AddRecord(EmptyBook, first), second);
            Find(b, "Ann") == Some(second) && |b.records| == 1
  {
    var first := Record("Ann", ["1111111111"], None);
    var b1 := AddRecord(EmptyBook, first);
    assert Names(b1.records) == ["Ann"];
  }
}
