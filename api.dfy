/** The in-memory student store and its five handlers. The store owns the list
    of records; each handler is written as the scan it performs, and proved
    against the specification functions of StudentRecords. */
module StudentApi {
  import opened StudentRecords

  class StudentStore {
    /** The records, in insertion order; ids may repeat. */
    var db: seq<Student>

    /** The store starts empty. */
    constructor ()
      ensures db == []
    {
      db := [];
    }

    /** Lists every record, in insertion order. Reads the store only. */
    method GetAll() returns (r: seq<Student>)
      ensures r == db
    {
      r := db;
    }

    /** Returns the first record in list order whose id is `id`, or NotFound.
        Reads the store only. */
    method Get(id: int) returns (r: Reply<Student>)
      ensures r == Find(db, id)
      ensures r.Ok? ==> r.value.id == id && r.value in db
    {
      var i := 0;
      while i < |db|
        invariant 0 <= i <= |db|
        invariant forall j :: 0 <= j < i ==> db[j].id != id
      {
        if db[i].id == id {
          return Ok(db[i]);
        }
        i := i + 1;
      }
      return NotFound;
    }

    /** Appends `s` without looking at the ids already stored, and returns it. */
    method Add(s: Student) returns (r: Student)
      modifies this
      ensures db == old(db) + [s]
      ensures r == s
    {
      db := db + [s];
      r := s;
    }

    /** Replaces the first record whose id is `id` by `u` (id included) and
        returns `u`; NotFound, with the store untouched, when none matches. */
    method Update(id: int, u: Student) returns (r: Reply<Student>)
      modifies this
      ensures db == Updated(old(db), id, u)
      ensures r == if FirstIndex(old(db), id) >= 0 then Ok(u) else NotFound
    {
      var i := 0;
      while i < |db|
        invariant 0 <= i <= |db|
        invariant db == old(db)
        invariant forall j :: 0 <= j < i ==> db[j].id != id
      {
        if db[i].id == id {
          db := db[i := u];
          return Ok(u);
        }
        i := i + 1;
      }
      return NotFound;
    }

    /** Removes the first record whose id is `id` and confirms with that id;
        NotFound, with the store untouched, when none matches. */
    method Delete(id: int) returns (r: Reply<int>)
      modifies this
      ensures db == Deleted(old(db), id)
      ensures r == if FirstIndex(old(db), id) >= 0 then Ok(id) else NotFound
    {
      var i := 0;
      while i < |db|
        invariant 0 <= i <= |db|
        invariant db == old(db)
        invariant forall j :: 0 <= j < i ==> db[j].id != id
      {
        if db[i].id == id {
          db := db[..i] + db[i + 1..];
          return Ok(id);
        }
        i := i + 1;
      }
      return NotFound;
    }
  }

  /** A session against one store: adding a record with a fresh id, reading it
      back, replacing it under the same id, and deleting it, leaves the store as
      it was, and the record can no longer be found. */
  method AddUpdateDeleteSession(store: StudentStore, x: Student, y: Student)
    requires CountId(store.db, x.id) == 0 && y.id == x.id
    modifies store
    ensures store.db == old(store.db)
    ensures Find(store.db, x.id) == NotFound
  {
    ghost var s := store.db;
    var added := store.Add(x);
    AddThenGet(s, x);
    CountZeroIffAbsent(s, x.id);
    var got := store.Get(x.id);
    assert got == Ok(x);
    var updated := store.Update(x.id, y);
    assert updated == Ok(y);
    UpdateThenGet(s + [x], x.id, y);
    assert store.db == s + [y] by {
      FirstIndexAppend(s, [x], x.id);
    }
    var deleted := store.Delete(x.id);
    assert deleted == Ok(x.id);
    AddThenDeleteRestores(s, y);
  }
}
