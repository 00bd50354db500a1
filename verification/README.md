# Address book: contacts and upcoming birthdays

A Dafny model of the core of a small command-line contact manager
(`addressBook.py`). The core has four parts:

- the validated fields: a phone number of exactly ten digits, and a birthday read from and written
  back as `DD.MM.YYYY`;
- the contact `Record`: a name, an ordered list of phones with duplicates allowed, and an optional
  birthday;
- the `AddressBook`: a dictionary from name to record;
- `get_upcoming_birthdays`. For every contact whose next birthday falls between today and
  today + 7 days inclusive, it computes the congratulation day. A Saturday or Sunday birthday moves
  to the following Monday. It groups the names by that day and returns the groups in date order.

Everything is modelled as immutable values and pure functions:

| file | module | contents |
|---|---|---|
| `wrappers.dfy` | `Wrappers`, `Errors` | `Option`, `Result`, `Outcome`; the closed set of errors the core raises |
| `calendar.dfy` | `Calendar` | Python's `datetime.date`: validity (years 1..9999), tuple comparison, `toordinal`, `weekday`, `+ timedelta`, `replace(year=…)` |
| `fields.dfy` | `Fields` | `Phone` validation, `Birthday` parsing and printing |
| `sequences.dfy` | `Sequences` | first-match search, the shape of the source's `for … if … ==` loops |
| `records.dfy` | `Records` | `Record` and its phone and birthday operations |
| `book.dfy` | `Book` | `AddressBook` with `add_record`, `find`, `delete` |
| `upcoming.dfy` | `Upcoming` | `get_upcoming_birthdays` and its properties |
| `scenarios.dfy` | `Scenarios` | concrete dates and books worked through the model |

Modelling choices:

- A mutating operation returns the record as it stands after the call, together with an `Outcome`
  that says whether the call raised. A failed call returns its input unchanged, which states
  "nothing changed" as a contract.
- The book is a sequence of records with pairwise distinct names. The source keys each record by
  its own name, and no operation renames a record, so the key is always the record's name. A Python
  dictionary iterates in insertion order, and overwriting a key keeps its position. The sequence
  keeps that same order.
- `today` is a parameter of `UpcomingBirthdays`; the source reads the system clock
  (`addressBook.py:129`).
- Every way the source's date arithmetic can raise becomes an explicit error:
  - `date.replace(year=…)` onto 29 February of a common year gives `DayOutOfRange`.
  - `replace` onto year 10000 gives `YearOutOfRange`.
  - `+ timedelta` past 31.12.9999 gives `DateOverflow`.
  - The first record whose loop body raises aborts the whole query with that error, as the Python
    exception does.
- A 29 February birthday is not clamped to another day. `Upcoming.LeapDayAnniversary` proves when
  it makes the query fail. That is every day except those of a leap year up to and including
  29 February.
- Python compares dates as `(year, month, day)` tuples, and the model does the same
  (`Calendar.Less`). `Calendar.LessIffOrdinal` proves that this order agrees with day numbers. The
  window and weekday properties are stated in day numbers (`Calendar.Ordinal`, which is Python's
  `toordinal`).

## Model

| member | source | states |
|---|---|---|
| `Fields.AllDigits` | addressBook.py:34 | the character scan succeeds exactly when every character is an ASCII digit |
| `Fields.NewPhone` | addressBook.py:28-35 | a phone is accepted exactly when it has length 10 and only digits; the stored value is the input text; otherwise the error is InvalidPhone |
| `Fields.SetPhone` | addressBook.py:37-39 | `set` takes the new text exactly when it is a valid phone; on failure the phone keeps its old value and the error is InvalidPhone |
| `Fields.ParseDate` | addressBook.py:49-54 | an accepted text yields a valid calendar date that prints back as exactly that text; a refused text gives InvalidDate |
| `Fields.FormatDate` | addressBook.py:60-61 | the printed birthday is ten characters with dots at positions 2 and 5; the first field reads as the day, the second as the month and the last four as the year |
| `Fields.FormatThenParse` | addressBook.py:49-61 | every valid date, printed as `DD.MM.YYYY`, is read back as the same date |
| `Fields.ParseIffFormat` | addressBook.py:49-61 | the parser maps a text to a date exactly when that date prints as the text |
| `Sequences.IndexOf` | addressBook.py:79-80 | the search finds the first position holding the value, and finds none exactly when the value is absent |
| `Records.AddPhone` | addressBook.py:75-76 | appending succeeds exactly for a valid phone, which is added at the end even if already present; a failure leaves the record unchanged |
| `Records.RemovePhone` | addressBook.py:78-83 | reports true exactly when the phone is present; removes only its first occurrence and keeps the others in order (one fewer copy in the multiset); absent means unchanged |
| `Records.EditPhone` | addressBook.py:85-90 | succeeds exactly when the old phone is present and the new one valid; then only the first occurrence is replaced and the length is kept; an absent old phone gives OldPhoneNotFound and an invalid new one InvalidPhone, both with the record unchanged |
| `Records.FindPhone` | addressBook.py:92-96 | returns the phone exactly when it is in the list, and None otherwise |
| `Records.AddBirthday` | addressBook.py:99-100 | succeeds exactly when the text parses; the new birthday prints as the given text and replaces any earlier one; a failure leaves the record unchanged |
| `Records.EditPhoneExample` | addressBook.py:85-96 | editing 1111111111 to 2222222222 succeeds and the new number is then found; editing an absent number fails with OldPhoneNotFound and leaves the record unchanged |
| `Book.Find` | addressBook.py:116-117 | finds a record exactly when the name is a key, and the record found carries that name |
| `Book.FindUnique` | addressBook.py:113-117 | in a book with unique keys, a record's name finds that very record |
| `Book.AddRecord` | addressBook.py:113-114 | afterwards the name finds the new record and every other name finds what it found before; an existing key keeps its position and a new key goes last; keys stay unique |
| `Book.Delete` | addressBook.py:119-120 | afterwards the name finds nothing and every other name is unaffected; an absent name leaves the book unchanged; otherwise only that key is removed from the key order |
| `Calendar.LessIffOrdinal` | addressBook.py:140-143 | comparing dates as tuples agrees with comparing their day numbers, and equal day numbers mean equal dates |
| `Calendar.AddDays` | addressBook.py:130 | `today + timedelta(days=n)` is the valid date exactly n day numbers later, and fails exactly when that passes 31.12.9999 |
| `Calendar.ReplaceYear` | addressBook.py:137-141 | `replace(year=y)` succeeds exactly when the same day and month make a valid date in year y; a year outside 1..9999 raises YearOutOfRange; DayOutOfRange happens exactly for 29 February in a common year |
| `Calendar.WeekdayShift` | addressBook.py:146-149 | moving k days on moves the weekday k places round the week |
| `Upcoming.Anniversary` | addressBook.py:137-141 | the birthday's day and month on or after today: in today's year, or in the next year only when this year's date is already past; fails exactly in the 29 February and year-10000 cases |
| `Upcoming.LeapDayAnniversary` | addressBook.py:137-141 | a 29 February birthday has an anniversary exactly when today's year is a leap year and today is not past 29 February; otherwise the error is DayOutOfRange |
| `Upcoming.CongratulationDay` | addressBook.py:144-149 | the result is always a weekday; a weekday birthday is kept; a Saturday or Sunday moves forward to the Monday |
| `Upcoming.Due` | addressBook.py:133-151 | a record without a birthday contributes nothing; a due record's congratulation day is a weekday from today up to two days past the window end; the loop body raises exactly when the record has a birthday and either `replace` raises (with its error) or the anniversary is in the window and the weekend move passes 31.12.9999 (DateOverflow) |
| `Upcoming.DueIff` | addressBook.py:137-149 | a record is due on day d exactly when its next anniversary lies between today and the window end, both included, and moves to d; the window test comes before the weekend move |
| `Upcoming.DueNamesMembership` | addressBook.py:151 | a name is listed for a day exactly when a record with that name is due on that day |
| `Upcoming.DueNamesDistinct` | addressBook.py:151 | with distinct record names, no name is listed twice for one day |
| `Upcoming.Scan` | addressBook.py:133-151 | the loop succeeds exactly when no record's body raises, and otherwise fails with the error of the first record that raises; on success the names paired with each day are the due names in book order |
| `Upcoming.AddToGroupsStep` | addressBook.py:151 | one `result[d].append(n)` on the `defaultdict` turns the grouping of the pairs so far into the grouping of the pairs with `(d, n)` appended |
| `Upcoming.GroupByDay` | addressBook.py:131-151 | one group per distinct day; each holds, in order, exactly the names paired with its day; a day without a group has no names |
| `Upcoming.Insert` | addressBook.py:154 | inserting into a strictly sorted list keeps it strictly sorted and adds exactly that group |
| `Upcoming.SortByDay` | addressBook.py:154 | the result is a permutation of the groups in strictly ascending day order |
| `Upcoming.UpcomingBirthdays` | addressBook.py:123-154 | succeeds exactly when today + 7 is representable and no record raises; the groups are in strictly ascending day order; each is non-empty and holds, in book order, exactly the names of the records due on its day; every day some record is due on has a group |
| `Upcoming.UpcomingFirstError` | addressBook.py:133-141 | when today + 7 is representable and the query fails, it fails with the error of the first record in book order whose loop body raises, every earlier record passing |
| `Upcoming.UpcomingMembership` | addressBook.py:133-151 | a name is listed under a day exactly when the book has a record of that name due on that day |
| `Upcoming.UpcomingDaysInRange` | addressBook.py:143-149 | every returned day is a weekday between today and today + 9 |
| `Upcoming.UpcomingNamesOnce` | addressBook.py:133-151 | every name appears at most once in the whole result |
| `Scenarios.SaturdayMovesToMonday` | addressBook.py:143-151 | from Monday 10.06.2024, a birthday on 15.06 (a Saturday) is congratulated on Monday 17.06.2024 |
| `Scenarios.NextYearAtWindowEnd` | addressBook.py:137-149 | from 28.12.2024, a birthday on 04.01 rolls into 2025, lands on the last day of the window (a Saturday) and is congratulated on 06.01.2025 |
| `Scenarios.DayAfterWindowEnd` | addressBook.py:143 | a birthday eight days away is not listed |
| `Scenarios.SortedRegardlessOfBookOrder` | addressBook.py:154 | a contact due on 17.06 entered before one due on 10.06 is listed after it |
| `Scenarios.LeapDayBirthdayRaises` | addressBook.py:137 | in 2023 a 29 February birthday makes the whole query fail with DayOutOfRange |
| `Scenarios.AddRecordTwiceOverwrites` | addressBook.py:113-114 | a second record under the same name replaces the first one whole, leaving one entry |

## Left out

- The console loop, `print` and `input` (`main`, addressBook.py:283-317): console I/O.
- `help_message` and the `input_error` decorator, which turns an exception into a message string (addressBook.py:168-203). This is presentation only. The errors are kept as the closed `Errors.Error` type.
- The command handlers `add_contact`, `change_contact`, `show_phones`, `show_all`, `add_birthday`, `show_birthday`, `birthdays`, and `parse_input` (addressBook.py:159-278). They only dispatch to the core and format strings.
- `Record.__str__` and the `—` placeholders (addressBook.py:102-105): cosmetic formatting.
- `Field` and `Name` (addressBook.py:10-22): a name is a plain string.
- `Record.__init__` (addressBook.py:69-72): a new contact is the datatype value `Record(name, [], None)`. There is no operation here to state anything about.
- `Fields.NewPhone`, `Fields.AllDigits` and `Fields.IsDigitString`: `str.isdigit` also accepts non-ASCII Unicode digits, and the model accepts only `0`-`9`, because Unicode digit classes are library behaviour this model does not see.
- `Fields.ParseDate`: `strptime("%d.%m.%Y")` also accepts unpadded fields such as `1.6.2000`. The model reads strictly two, two and four ASCII digits, because `strptime`'s lenience is library behaviour this model does not see.
- `Fields.FormatDate`: `strftime("%Y")` on some C libraries does not pad years below 1000 to four digits. The model always pads, because that output depends on the platform.
- Object identity and in-place mutation: a phone or record changed through one reference is seen through every other. The model passes values and returns the updated record, and the book is updated by adding the record again.
- `datetime.date.today()` (addressBook.py:129): the clock is replaced by the `today` parameter.
