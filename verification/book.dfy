/**
 * The address book: a dictionary from contact name to record. Python
 * dictionaries iterate in insertion order and an overwrite keeps the key's
 * original position, so the book is a sequence of records whose names are
 * pairwise distinct, each record being stored under its own name.
 */
module Book {
  import opened Wrappers
  import opened Records
  import opened Sequences

  datatype AddressBook = AddressBook(records: seq<Record>)

  /** The book the program starts with. */
  const EmptyBook := AddressBook([])

  /** The keys in iteration order. */
  function Names(rs: seq<Record>): (ns: seq<string>)
    ensures |ns| == |rs|
    ensures forall i :: 0 <= i < |rs| ==> ns[i] == rs[i].name
  {
    seq(|rs|, i requires 0 <= i < |rs| => rs[i].name)
  }

  /** Dictionary keys are unique. */
  predicate Valid(b: AddressBook) {
    forall i, j :: 0 <= i < j < |b.records| ==> b.records[i].name != b.records[j].name
  }

  /** `find`: the record stored under `name`, or None. */
  function Find(b: AddressBook, name: string): (r: Option<Record>)
    ensures r.Some? <==> name in Names(b.records)
    ensures r.Some? ==> r.value in b.records && r.value.name == name
  {
    match IndexOf(Names(b.records), name)
    case None => None
    case Some(i) => Some(b.records[i])
  }

  /** In a valid book a name reaches the one record that carries it. */
  lemma FindUnique(b: AddressBook, j: nat)
    requires Valid(b) && j < |b.records|
    ensures Find(b, b.records[j].name) == Some(b.records[j])
  {
    var k := IndexOf(Names(b.records), b.records[j].name).value;
    assert b.records[k].name == b.records[j].name;
  }

  /**
   * `add_record`: stores `rec` under its name. An existing entry is
   * overwritten in place; a new name is appended at the end.
   */
  function AddRecord(b: AddressBook, rec: Record): (r: AddressBook)
    requires Valid(b)
    ensures Valid(r)
    ensures Find(r, rec.name) == Some(rec)
    ensures forall n :: n != rec.name ==> Find(r, n) == Find(b, n)
    ensures rec.name in Names(b.records) ==> Names(r.records) == Names(b.records)
    ensures rec.name !in Names(b.records) ==> Names(r.records) == Names(b.records) + [rec.name]
  {
    match IndexOf(Names(b.records), rec.name)
    case Some(i) =>
      var r := AddressBook(b.records[i := rec]);
      assert Names(r.records) == Names(b.records);
      FindUnique(r, i);
      r
    case None =>
      var r := AddressBook(b.records + [rec]);
      assert Names(r.records) == Names(b.records) + [rec.name];
      FindUnique(r, |b.records|);
      FindOthers(b, r);
      r
  }

  /** When `r` extends `b` by records under new names, every name of `b` finds the same record. */
  lemma FindOthers(b: AddressBook, r: AddressBook)
    requires Valid(b) && Valid(r)
    requires |b.records| <= |r.records|
    requires forall j :: 0 <= j < |b.records| ==> r.records[j] == b.records[j]
    requires forall j :: |b.records| <= j < |r.records| ==> r.records[j].name !in Names(b.records)
    ensures forall n :: n in Names(b.records) ==> Find(r, n) == Find(b, n)
  {
    forall n | n in Names(b.records)
      ensures Find(r, n) == Find(b, n)
    {
      var j := IndexOf(Names(b.records), n).value;
      FindUnique(b, j);
      FindUnique(r, j);
    }
  }

  /** `delete`: removes the entry for `name`; an absent name is a no-op. */
  function Delete(b: AddressBook, name: string): (r: AddressBook)
    requires Valid(b)
    ensures Valid(r)
    ensures Find(r, name).None?
    ensures forall n :: n != name ==> Find(r, n) == Find(b, n)
    ensures name !in Names(b.records) ==> r == b
    ensures name in Names(b.records) ==>
              exists i :: 0 <= i < |b.records| && b.records[i].name == name
                          && Names(r.records) == Names(b.records)[..i] + Names(b.records)[i + 1..]
  {
    match IndexOf(Names(b.records), name)
    case None => b
    case Some(i) =>
      var r := AddressBook(RemoveAt(b.records, i));
      assert Names(r.records) == Names(b.records)[..i] + Names(b.records)[i + 1..];
      forall n | n != name
        ensures Find(r, n) == Find(b, n)
      {
        if n in Names(b.records) {
          var j := IndexOf(Names(b.records), n).value;
          FindUnique(b, j);
          FindUnique(r, if j < i then j else j - 1);
        }
      }
      r
  }
}
