/** The student record and the pure specification of the in-memory student list:
    where the first record with a given id sits, how many records carry an id,
    and what the list looks like after a lookup, a replacement or a removal.
    The store in module StudentApi is proved against these functions. */
module StudentRecords {

  datatype Option<T> = None | Some(value: T)

  /** A student record. `email` is optional and absent by default; nothing
      makes `id` unique. */
  datatype Student = Student(id: int, name: string, age: int, grade: string, email: Option<string> := None)

  /** The outcome of a handler that addresses a record by id: a value, or
      "Student not found" (the 404 answer). */
  datatype Reply<T> = Ok(value: T) | NotFound

  /** The position of the first record whose id is `id`, or -1 when there is none. */
  function FirstIndex(s: seq<Student>, id: int): (k: int)
    ensures -1 <= k < |s|
    ensures 0 <= k ==> s[k].id == id && forall j :: 0 <= j < k ==> s[j].id != id
    ensures k == -1 <==> forall j :: 0 <= j < |s| ==> s[j].id != id
  {
    if s == [] then -1
    else if s[0].id == id then 0
    else
      var k := FirstIndex(s[1..], id);
      if k == -1 then -1 else k + 1
  }

  /** The number of records whose id is `id`. */
  function CountId(s: seq<Student>, id: int): (n: nat)
    ensures n <= |s|
  {
    if s == [] then 0
    else (if s[0].id == id then 1 else 0) + CountId(s[1..], id)
  }

  /** Lookup by id: the first matching record in list order, or NotFound. */
  function Find(s: seq<Student>, id: int): (r: Reply<Student>)
    ensures r.NotFound? <==> forall j :: 0 <= j < |s| ==> s[j].id != id
    ensures r.Ok? ==> (r.value.id == id &&
      exists k :: 0 <= k < |s| && s[k] == r.value && forall j :: 0 <= j < k ==> s[j].id != id)
  {
    var k := FirstIndex(s, id);
    if k < 0 then NotFound else Ok(s[k])
  }

  /** The list after the first record with id `id` is replaced wholesale by
      `u`, whose own id may differ; the list itself when no record matches. */
  function Updated(s: seq<Student>, id: int, u: Student): (r: seq<Student>)
    ensures |r| == |s|
    ensures FirstIndex(s, id) >= 0 ==> r[FirstIndex(s, id)] == u
    ensures forall j :: 0 <= j < |s| && j != FirstIndex(s, id) ==> r[j] == s[j]
  {
    var k := FirstIndex(s, id);
    if k < 0 then s else s[k := u]
  }

  /** The list after the first record with id `id` is removed; the list itself
      when no record matches. */
  function Deleted(s: seq<Student>, id: int): (r: seq<Student>)
    ensures FirstIndex(s, id) < 0 ==> r == s
    ensures FirstIndex(s, id) >= 0 ==> |r| == |s| - 1
  {
    var k := FirstIndex(s, id);
    if k < 0 then s else s[..k] + s[k + 1..]
  }

  // ---------------------------------------------------------------------------
  // Counting and first-match facts

  /** No record carries `id` exactly when a lookup finds no first match. */
  lemma {:induction false} CountZeroIffAbsent(s: seq<Student>, id: int)
    ensures CountId(s, id) == 0 <==> FirstIndex(s, id) == -1
  {
    if s != [] {
      CountZeroIffAbsent(s[1..], id);
    }
  }

  lemma {:induction false} CountAppend(a: seq<Student>, b: seq<Student>, id: int)
    ensures CountId(a + b, id) == CountId(a, id) + CountId(b, id)
  {
    if a == [] {
      assert a + b == b;
    } else {
      assert (a + b)[1..] == a[1..] + b;
      CountAppend(a[1..], b, id);
    }
  }

  /** Replacing one position changes the count of an id only by what left and
      what arrived at that position. */
  lemma CountReplace(s: seq<Student>, k: nat, u: Student, id: int)
    requires k < |s|
    ensures CountId(s[k := u], id) ==
      CountId(s, id) - (if s[k].id == id then 1 else 0) + (if u.id == id then 1 else 0)
  {
    assert s == s[..k] + [s[k]] + s[k + 1..];
    assert s[k := u] == s[..k] + [u] + s[k + 1..];
    CountAppend(s[..k] + [s[k]], s[k + 1..], id);
    CountAppend(s[..k], [s[k]], id);
    CountAppend(s[..k] + [u], s[k + 1..], id);
    CountAppend(s[..k], [u], id);
  }

  /** The first match in a concatenation is in the left part if it has one,
      otherwise the right part's first match, shifted. */
  lemma {:induction false} FirstIndexAppend(a: seq<Student>, b: seq<Student>, id: int)
    ensures FirstIndex(a + b, id) ==
      if FirstIndex(a, id) >= 0 then FirstIndex(a, id)
      else if FirstIndex(b, id) >= 0 then |a| + FirstIndex(b, id)
      else -1
  {
    if a == [] {
      assert a + b == b;
    } else {
      assert (a + b)[1..] == a[1..] + b;
      FirstIndexAppend(a[1..], b, id);
    }
  }

  /** A list whose first match of `id` lies in its suffix from `off`, at the
      suffix's own first match, answers a lookup of `id` as that suffix does. */
  lemma FindInSuffix(t: seq<Student>, off: nat, id: int)
    requires off <= |t|
    requires FirstIndex(t, id) ==
      var f := FirstIndex(t[off..], id); if f < 0 then -1 else off + f
    ensures Find(t, id) == Find(t[off..], id)
  {
    var back := t[off..];
    var f := FirstIndex(back, id);
    if f >= 0 {
      assert t[off + f] == back[f];
      assert Find(back, id) == Ok(back[f]);
      assert Find(t, id) == Ok(t[off + f]);
    } else {
      assert Find(back, id) == NotFound;
      assert Find(t, id) == NotFound;
    }
  }

  // ---------------------------------------------------------------------------
  // add_student followed by get_student / delete_student

  /** After appending `x`, looking up `x.id` yields `x` only when no earlier
      record had that id, and the earlier record otherwise; the number of
      records with that id grows by one (duplicates are kept). */
  lemma AddThenGet(s: seq<Student>, x: Student)
    ensures Find(s + [x], x.id) == if Find(s, x.id).Ok? then Find(s, x.id) else Ok(x)
    ensures CountId(s + [x], x.id) == CountId(s, x.id) + 1
  {
    FirstIndexAppend(s, [x], x.id);
    CountAppend(s, [x], x.id);
  }

  /** Appending a record whose id is new and then deleting that id gives back
      the original list. */
  lemma AddThenDeleteRestores(s: seq<Student>, x: Student)
    requires CountId(s, x.id) == 0
    ensures Deleted(s + [x], x.id) == s
  {
    CountZeroIffAbsent(s, x.id);
    FirstIndexAppend(s, [x], x.id);
    assert (s + [x])[..|s|] == s;
  }

  // ---------------------------------------------------------------------------
  // update_student

  /** Updating with a record that keeps the id makes a lookup of that id
      return the new record. */
  lemma UpdateThenGet(s: seq<Student>, id: int, u: Student)
    requires FirstIndex(s, id) >= 0 && u.id == id
    ensures Find(Updated(s, id, u), id) == Ok(u)
  {
    var k := FirstIndex(s, id);
    var t := Updated(s, id, u);
    assert t[k] == u;
    assert forall j :: 0 <= j < k ==> t[j] == s[j];
  }

  /** Replacing position `k`, before which no record has `id`, by a record
      with another id leaves the first match of `id` at the next match after
      that position. */
  lemma FirstIndexReplaceAt(s: seq<Student>, k: nat, u: Student, id: int)
    requires k < |s| && u.id != id
    requires forall j :: 0 <= j < k ==> s[j].id != id
    ensures FirstIndex(s[k := u], id) ==
      var f := FirstIndex(s[k + 1..], id); if f < 0 then -1 else k + 1 + f
  {
    var front := s[..k] + [u];
    assert s[k := u] == front + s[k + 1..];
    assert forall j :: 0 <= j < |front| ==> front[j].id != id;
    assert FirstIndex(front, id) == -1;
    FirstIndexAppend(front, s[k + 1..], id);
  }

  /** Updating with a record that changes the id makes a lookup of the old id
      find the next duplicate after the replaced record, if there is one. */
  lemma UpdateChangesIdThenGet(s: seq<Student>, id: int, u: Student)
    requires FirstIndex(s, id) >= 0 && u.id != id
    ensures Find(Updated(s, id, u), id) == Find(s[FirstIndex(s, id) + 1..], id)
  {
    var k := FirstIndex(s, id);
    var t := Updated(s, id, u);
    FirstIndexReplaceAt(s, k, u, id);
    assert t[k + 1..] == s[k + 1..];
    FindInSuffix(t, k + 1, id);
  }

  /** A replacement that changes the id moves one record from the old id to
      the new one; the record counts of all other ids stay as they were. */
  lemma UpdateMovesId(s: seq<Student>, id: int, u: Student, other: int)
    requires FirstIndex(s, id) >= 0
    ensures CountId(Updated(s, id, u), other) ==
      CountId(s, other) - (if other == id then 1 else 0) + (if other == u.id then 1 else 0)
  {
    CountReplace(s, FirstIndex(s, id), u, other);
  }

  /** Updating with `u` and then updating `u.id` with the record that was
      replaced restores the list, provided no record before the replaced one
      carries `u.id`. */
  lemma UpdateUndo(s: seq<Student>, id: int, u: Student)
    requires FirstIndex(s, id) >= 0
    requires forall j :: 0 <= j < FirstIndex(s, id) ==> s[j].id != u.id
    ensures Updated(Updated(s, id, u), u.id, s[FirstIndex(s, id)]) == s
  {
    var k := FirstIndex(s, id);
    var t := Updated(s, id, u);
    assert t[k].id == u.id;
    assert FirstIndex(t, u.id) == k;
  }

  // ---------------------------------------------------------------------------
  // delete_student

  /** Removing position `k` keeps the records before and after it in order and
      loses only the record at `k`. */
  lemma RemoveAt(s: seq<Student>, k: nat)
    requires k < |s|
    ensures (s[..k] + s[k + 1..])[..k] == s[..k]
    ensures (s[..k] + s[k + 1..])[k..] == s[k + 1..]
    ensures multiset(s[..k] + s[k + 1..]) + multiset{s[k]} == multiset(s)
  {
    assert s == s[..k] + [s[k]] + s[k + 1..];
  }

  /** A delete removes exactly the first matching record: the records before
      it and after it keep their order, and nothing else is lost or added. */
  lemma DeleteKeepsOthers(s: seq<Student>, id: int)
    requires FirstIndex(s, id) >= 0
    ensures Deleted(s, id)[..FirstIndex(s, id)] == s[..FirstIndex(s, id)]
    ensures Deleted(s, id)[FirstIndex(s, id)..] == s[FirstIndex(s, id) + 1..]
    ensures multiset(Deleted(s, id)) + multiset{s[FirstIndex(s, id)]} == multiset(s)
  {
    RemoveAt(s, FirstIndex(s, id));
  }

  /** Removing a position before which no record has `id` leaves the first
      match of `id` at the next match after that position. */
  lemma FirstIndexRemoveAt(s: seq<Student>, k: nat, id: int)
    requires k < |s|
    requires forall j :: 0 <= j < k ==> s[j].id != id
    ensures FirstIndex(s[..k] + s[k + 1..], id) ==
      var f := FirstIndex(s[k + 1..], id); if f < 0 then -1 else k + f
  {
    assert FirstIndex(s[..k], id) == -1;
    FirstIndexAppend(s[..k], s[k + 1..], id);
  }

  /** After a delete, the first match of the same id is the next duplicate
      after the removed record, if there is one. */
  lemma DeleteFirstIndex(s: seq<Student>, id: int)
    requires FirstIndex(s, id) >= 0
    ensures FirstIndex(Deleted(s, id), id) ==
      var f := FirstIndex(s[FirstIndex(s, id) + 1..], id); if f < 0 then -1 else FirstIndex(s, id) + f
  {
    FirstIndexRemoveAt(s, FirstIndex(s, id), id);
  }

  /** After a delete, a lookup of the same id finds the next duplicate, if
      there is one after the removed record. */
  lemma DeleteThenGet(s: seq<Student>, id: int)
    requires FirstIndex(s, id) >= 0
    ensures Find(Deleted(s, id), id) == Find(s[FirstIndex(s, id) + 1..], id)
  {
    var k := FirstIndex(s, id);
    DeleteFirstIndex(s, id);
    RemoveAt(s, k);
    FindInSuffix(Deleted(s, id), k, id);
  }

  /** A delete removes one record with the id and no record with any other id. */
  lemma {:induction false} DeleteCount(s: seq<Student>, id: int, other: int)
    ensures CountId(Deleted(s, id), other) ==
      if other == id && CountId(s, id) > 0 then CountId(s, id) - 1 else CountId(s, other)
  {
    CountZeroIffAbsent(s, id);
    var k := FirstIndex(s, id);
    if k >= 0 {
      assert s == s[..k] + [s[k]] + s[k + 1..];
      CountAppend(s[..k] + [s[k]], s[k + 1..], other);
      CountAppend(s[..k], [s[k]], other);
      CountAppend(s[..k], s[k + 1..], other);
    }
  }

  /** When exactly one record had the id, a lookup after deleting it is NotFound. */
  lemma DeleteSoleThenGet(s: seq<Student>, id: int)
    requires CountId(s, id) == 1
    ensures Find(Deleted(s, id), id) == NotFound
  {
    DeleteCount(s, id, id);
    CountZeroIffAbsent(Deleted(s, id), id);
  }
}
