/**
 * One contact: a name, an ordered list of phones (duplicates allowed) and an
 * optional birthday. Every mutating operation returns the record as it is
 * after the call together with whether the call raised; a call that raises
 * leaves the record exactly as it was.
 */
module Records {
  import opened Wrappers
  import opened Errors
  import opened Calendar
  import opened Fields
  import opened Sequences

  datatype Record = Record(name: string, phones: seq<Phone>, birthday: Option<CalendarDate>)

  /** `add_phone`: validates and appends; a duplicate is appended too. */
  function AddPhone(rec: Record, value: string): (r: (Record, Outcome<Error>))
    ensures r.1.Pass? <==> IsValidPhone(value)
    ensures r.1.Pass? ==> r.0 == rec.(phones := rec.phones + [value])
    ensures r.1.Fail? ==> r.0 == rec && r.1.error == InvalidPhone
  {
    match NewPhone(value)
    case Ok(p) => (rec.(phones := rec.phones + [p]), Pass)
    case Err(e) => (rec, Fail(e))
  }

  /**
   * `remove_phone`: drops the first phone equal to `value` and reports
   * whether one was dropped; an absent phone is not an error.
   */
  function RemovePhone(rec: Record, value: string): (r: (Record, bool))
    ensures r.1 <==> value in rec.phones
    ensures !r.1 ==> r.0 == rec
    ensures r.0.name == rec.name && r.0.birthday == rec.birthday
    ensures r.1 ==> exists i :: 0 <= i < |rec.phones| && rec.phones[i] == value && value !in rec.phones[..i]
                                && r.0.phones == rec.phones[..i] + rec.phones[i + 1..]
    ensures r.1 ==> var before: seq<string> := rec.phones;
                    var after: seq<string> := r.0.phones;
                    multiset(after) == multiset(before) - multiset{value}
  {
    match IndexOf<string>(rec.phones, value)
    case None => (rec, false)
    case Some(i) =>
      assert rec.phones == rec.phones[..i] + [rec.phones[i]] + rec.phones[i + 1..];
      (rec.(phones := RemoveAt(rec.phones, i)), true)
  }

  /**
   * `edit_phone`: replaces the first phone equal to `oldPhone` by `newPhone`. Fails
   * with OldPhoneNotFound when `oldPhone` is absent and with InvalidPhone when `newPhone` is
   * not a phone; either way the record is unchanged.
   */
  function EditPhone(rec: Record, oldPhone: string, newPhone: string): (r: (Record, Outcome<Error>))
    ensures r.1.Pass? <==> oldPhone in rec.phones && IsValidPhone(newPhone)
    ensures oldPhone !in rec.phones ==> r == (rec, Fail(OldPhoneNotFound))
    ensures oldPhone in rec.phones && !IsValidPhone(newPhone) ==> r == (rec, Fail(InvalidPhone))
    ensures r.0.name == rec.name && r.0.birthday == rec.birthday && |r.0.phones| == |rec.phones|
    ensures r.1.Pass? ==> exists i :: 0 <= i < |rec.phones| && rec.phones[i] == oldPhone && oldPhone !in rec.phones[..i]
                                      && r.0.phones == rec.phones[i := newPhone]
  {
    match IndexOf<string>(rec.phones, oldPhone)
    case None => (rec, Fail(OldPhoneNotFound))
    case Some(i) =>
      var (p, outcome) := SetPhone(rec.phones[i], newPhone);
      if outcome.Fail? then (rec, outcome)
      else (rec.(phones := rec.phones[i := p]), Pass)
  }

  /** `find_phone`: the phone equal to `value`, or None. */
  function FindPhone(rec: Record, value: string): (r: Option<string>)
    ensures r.Some? <==> value in rec.phones
    ensures r.Some? ==> r.value == value
  {
    match IndexOf<string>(rec.phones, value)
    case None => None
    case Some(i) => Some(rec.phones[i])
  }

  /** `add_birthday`: parses `text` and overwrites any earlier birthday. */
  function AddBirthday(rec: Record, text: string): (r: (Record, Outcome<Error>))
    ensures r.1.Pass? <==> ParseDate(text).Ok?
    ensures r.1.Pass? ==> && r.0.name == rec.name && r.0.phones == rec.phones
                          && r.0.birthday.Some?
                          && FormatDate(r.0.birthday.value) == text
    ensures r.1.Fail? ==> r.0 == rec && r.1.error == InvalidDate
  {
    match ParseDate(text)
    case Ok(d) => (rec.(birthday := Some(d)), Pass)
    case Err(e) => (rec, Fail(e))
  }

  /** Editing a present phone then finding the new value succeeds; editing an absent one fails. */
  lemma EditPhoneExample()
    ensures var rec := Record("Ann", ["1111111111"], None);
            var (edited, outcome) := EditPhone(rec, "1111111111", "2222222222");
            && outcome == Pass
            && FindPhone(edited, "2222222222") == Some("2222222222")
            && EditPhone(rec, "9999999999", "2222222222") == (rec, Fail(OldPhoneNotFound))
  {
    var rec := Record("Ann", ["1111111111"], None);
    assert "1111111111" in rec.phones;
    assert "9999999999" !in rec.phones;
    assert IsValidPhone("2222222222");
  }
}
