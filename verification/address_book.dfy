/**
 * The address book (class `AddressBook` in oop_bot.py): a mapping from a
 * contact's name to its record. Python's dict keeps insertion order; the
 * model is a plain map, so iteration order is not part of it.
 */
module AddressBook {
  import opened Wrappers
  import opened Records

  type Book = map<string, Record>

  const Empty: Book := map[]

  /** Every record is filed under its own name, as `add_record` files it. */
  ghost predicate WellKeyed(b: Book) {
    forall n :: n in b ==> b[n].name == n
  }

  /** `add_record`: file the record under its name, replacing any record already there. */
  function AddRecord(b: Book, r: Record): (b': Book)
    ensures b'.Keys == b.Keys + {r.name}
    ensures b'[r.name] == r
    ensures forall n :: n in b && n != r.name ==> b'[n] == b[n]
    ensures WellKeyed(b) ==> WellKeyed(b')
  {
    b[r.name := r]
  }

  /** `find`: the record filed under the name, or `None`. */
  function Find(b: Book, name: string): (found: Option<Record>)
    ensures found.None? <==> name !in b
    ensures found.Some? ==> found.value == b[name]
    ensures WellKeyed(b) && found.Some? ==> found.value.name == name
  {
    if name in b then Some(b[name]) else None
  }

  /** `delete`: drop the name's entry; a name that is not there is ignored. */
  function Delete(b: Book, name: string): (b': Book)
    ensures b'.Keys == b.Keys - {name}
    ensures forall n :: n in b' ==> b'[n] == b[n]
    ensures name !in b ==> b' == b
    ensures WellKeyed(b) ==> WellKeyed(b')
  {
    if name in b then b - {name} else b
  }

  /** After `add_record(r)`, `find(r.name)` returns `r` and every other lookup is unchanged. */
  lemma FindAfterAdd(b: Book, r: Record, name: string)
    ensures Find(AddRecord(b, r), r.name) == Some(r)
    ensures name != r.name ==> Find(AddRecord(b, r), name) == Find(b, name)
  {
  }

  /** Adding a second record under the same name overwrites the first; there is no merge. */
  lemma AddRecordOverwrites(b: Book, r1: Record, r2: Record)
    requires r1.name == r2.name
    ensures AddRecord(AddRecord(b, r1), r2) == AddRecord(b, r2)
  {
  }

  /** After `delete(name)`, `find(name)` is `None` and every other lookup is unchanged. */
  lemma FindAfterDelete(b: Book, name: string, other: string)
    ensures Find(Delete(b, name), name) == None
    ensures other != name ==> Find(Delete(b, name), other) == Find(b, other)
  {
  }

  /** Deleting a name twice is the same as deleting it once. */
  lemma DeleteIdempotent(b: Book, name: string)
    ensures Delete(Delete(b, name), name) == Delete(b, name)
  {
  }

  /** Deleting a record just added under a fresh name gives back the book as it was. */
  lemma DeleteUndoesAdd(b: Book, r: Record)
    requires r.name !in b
    ensures Delete(AddRecord(b, r), r.name) == b
  {
  }
}
