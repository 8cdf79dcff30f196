/**
 * The person/face store: two tables keyed by integer ids. A person has a unique name,
 * an optional note and a creation time; a face record belongs to exactly one person and
 * holds its embedding, an optional face crop and a creation time. Deleting a person
 * deletes its faces. Each operation of the source commits at once, so each is modelled
 * as one atomic update of the two maps.
 */
module Database {
  import opened Common
  import FaceEngine

  datatype Person = Person(name: string, info: Option<string>, createdAt: int)

  /** A face record. The embedding is stored as float32 bytes and read back bit for bit,
      so the model keeps the vector itself. */
  datatype FaceEmb = FaceEmb(personId: int, embedding: seq<real>, img: Option<FaceEngine.Image>, createdAt: int)

  /** One row of `list_persons_with_counts`: a person and how many faces it owns. */
  datatype PersonRow = PersonRow(id: int, person: Person, count: nat)

  /** One row of `list_faces_for_person`. */
  datatype FaceRow = FaceRow(id: int, face: FaceEmb)

  /** The UNIQUE constraint on `persons.name`. */
  ghost predicate NamesUnique(persons: map<int, Person>)
  {
    forall a, b :: a in persons && b in persons && persons[a].name == persons[b].name ==> a == b
  }

  /** The foreign key `faces.person_id -> persons.id`, NOT NULL. */
  ghost predicate NoOrphans(persons: map<int, Person>, faces: map<int, FaceEmb>)
  {
    forall k :: k in faces ==> faces[k].personId in persons
  }

  /** The ids of the faces owned by `personId`. */
  function FacesOf(faces: map<int, FaceEmb>, personId: int): set<int>
  {
    set k | k in faces && faces[k].personId == personId
  }

  function CountOf(faces: map<int, FaceEmb>, personId: int): nat
  {
    |FacesOf(faces, personId)|
  }

  // ---------------------------------------------------------------- name order

  /** `ORDER BY name ASC`: SQLite's binary collation compares the UTF-8 bytes, which
      orders strings by code point, shorter prefix first. */
  predicate NameBefore(a: string, b: string)
  {
    if |a| == 0 then |b| > 0
    else if |b| == 0 then false
    else if a[0] != b[0] then a[0] < b[0]
    else NameBefore(a[1..], b[1..])
  }

  lemma {:induction false} NameBeforeIrreflexive(a: string)
    ensures !NameBefore(a, a)
  {
    if |a| > 0 {
      NameBeforeIrreflexive(a[1..]);
    }
  }

  lemma {:induction false} NameBeforeTotal(a: string, b: string)
    requires a != b
    ensures NameBefore(a, b) || NameBefore(b, a)
  {
    if |a| > 0 && |b| > 0 && a[0] == b[0] {
      assert a == [a[0]] + a[1..] && b == [b[0]] + b[1..];
      NameBeforeTotal(a[1..], b[1..]);
    }
  }

  lemma {:induction false} NameBeforeTransitive(a: string, b: string, c: string)
    requires NameBefore(a, b) && NameBefore(b, c)
    ensures NameBefore(a, c)
  {
    if |a| > 0 && |b| > 0 && |c| > 0 && a[0] == b[0] && b[0] == c[0] {
      NameBeforeTransitive(a[1..], b[1..], c[1..]);
    }
  }

  ghost predicate SortedByName(rows: seq<PersonRow>)
  {
    forall i, j :: 0 <= i < j < |rows| ==> NameBefore(rows[i].person.name, rows[j].person.name)
  }

  ghost predicate NewestFirst(rows: seq<FaceRow>)
  {
    forall i, j :: 0 <= i < j < |rows| ==> rows[i].face.createdAt > rows[j].face.createdAt
  }

  /** Where a row named `name` goes in a list sorted by name. */
  method NamePosition(rows: seq<PersonRow>, name: string) returns (pos: nat)
    requires SortedByName(rows)
    requires forall i :: 0 <= i < |rows| ==> rows[i].person.name != name
    ensures pos <= |rows|
    ensures forall i :: 0 <= i < pos ==> NameBefore(rows[i].person.name, name)
    ensures forall i :: pos <= i < |rows| ==> NameBefore(name, rows[i].person.name)
  {
    pos := 0;
    while pos < |rows| && NameBefore(rows[pos].person.name, name)
      invariant pos <= |rows|
      invariant forall i :: 0 <= i < pos ==> NameBefore(rows[i].person.name, name)
    {
      pos := pos + 1;
    }
    if pos < |rows| {
      NameBeforeTotal(rows[pos].person.name, name);
      forall i | pos < i < |rows|
        ensures NameBefore(name, rows[i].person.name)
      {
        NameBeforeTransitive(name, rows[pos].person.name, rows[i].person.name);
      }
    }
  }

  /** Where a face created at `t` goes in a list sorted newest first. */
  method NewerPosition(rows: seq<FaceRow>, t: int) returns (pos: nat)
    requires NewestFirst(rows)
    requires forall i :: 0 <= i < |rows| ==> rows[i].face.createdAt != t
    ensures pos <= |rows|
    ensures forall i :: 0 <= i < pos ==> rows[i].face.createdAt > t
    ensures forall i :: pos <= i < |rows| ==> rows[i].face.createdAt < t
  {
    pos := 0;
    while pos < |rows| && rows[pos].face.createdAt > t
      invariant pos <= |rows|
      invariant forall i :: 0 <= i < pos ==> rows[i].face.createdAt > t
    {
      pos := pos + 1;
    }
  }

  /** `rows` with `row` inserted at its place in name order. */
  method InsertByName(rows: seq<PersonRow>, row: PersonRow) returns (out: seq<PersonRow>)
    requires SortedByName(rows)
    requires forall r :: r in rows ==> r.person.name != row.person.name
    ensures SortedByName(out)
    ensures forall r :: r in out <==> r in rows || r == row
  {
    var pos := NamePosition(rows, row.person.name);
    out := rows[..pos] + [row] + rows[pos..];
    assert forall i :: 0 <= i < |out| ==> out[i] == if i < pos then rows[i] else if i == pos then row else rows[i - 1];
    forall i, j | 0 <= i < j < |out|
      ensures NameBefore(out[i].person.name, out[j].person.name)
    {
      if i < pos && pos < j {
        NameBeforeTransitive(out[i].person.name, row.person.name, out[j].person.name);
      }
    }
    assert rows == rows[..pos] + rows[pos..];
  }

  /** `rows` with `row` inserted at its place in newest-first order. */
  method InsertNewestFirst(rows: seq<FaceRow>, row: FaceRow) returns (out: seq<FaceRow>)
    requires NewestFirst(rows)
    requires forall r :: r in rows ==> r.face.createdAt != row.face.createdAt
    ensures NewestFirst(out)
    ensures forall r :: r in out <==> r in rows || r == row
  {
    var pos := NewerPosition(rows, row.face.createdAt);
    out := rows[..pos] + [row] + rows[pos..];
    assert forall i :: 0 <= i < |out| ==> out[i] == if i < pos then rows[i] else if i == pos then row else rows[i - 1];
    forall i, j | 0 <= i < j < |out|
      ensures out[i].face.createdAt > out[j].face.createdAt
    {
      if j < pos || pos < i {
        assert out[i].face.createdAt > out[j].face.createdAt;
      }
    }
    assert rows == rows[..pos] + rows[pos..];
  }

  // ---------------------------------------------------------------- row ids

  /** SQLite's choice of a new INTEGER PRIMARY KEY: one more than the largest id in the
      table, or 1 for an empty table. */
  method NextRowId(keys: set<int>) returns (id: int)
    requires forall k :: k in keys ==> 1 <= k
    ensures 1 <= id && id !in keys
    ensures forall k :: k in keys ==> k < id
    ensures id == 1 || id - 1 in keys
  {
    id := 1;
    var todo := keys;
    ghost var done: set<int> := {};
    while todo != {}
      invariant done + todo == keys
      invariant 1 <= id
      invariant forall k :: k in done ==> k < id
      invariant id == 1 || id - 1 in keys
      decreases |todo|
    {
      NonEmptyHasMember(todo);
      var k :| k in todo;
      if id <= k {
        id := k + 1;
      }
      todo, done := todo - {k}, done + {k};
    }
  }

  /** The person after a re-registration with note `info`: the note is replaced only
      by a non-empty note. */
  function WithInfo(p: Person, info: Option<string>): (q: Person)
    ensures q.name == p.name && q.createdAt == p.createdAt
    ensures q.info == (if info.Some? && info.value != "" then info else p.info)
    ensures q != p <==> info.Some? && info.value != "" && p.info != info
  {
    if info.Some? && info.value != "" && p.info != info then p.(info := info) else p
  }

  // ---------------------------------------------------------------- the store

  class Store {
    var persons: map<int, Person>
    var faces: map<int, FaceEmb>
    /** The last creation time handed out; stands for the wall clock. */
    var clock: int

    ghost predicate Valid()
      reads this
    {
      && NamesUnique(persons)
      && NoOrphans(persons, faces)
      && (forall id :: id in persons ==> 1 <= id)
      && (forall k :: k in faces ==> 1 <= k)
      && (forall id :: id in persons ==> persons[id].createdAt <= clock)
      && (forall k :: k in faces ==> faces[k].createdAt <= clock)
      && (forall a, b :: a in faces && b in faces && faces[a].createdAt == faces[b].createdAt ==> a == b)
    }

    /** `init_db` on a fresh database: both tables empty. */
    constructor ()
      ensures Valid()
      ensures persons == map[] && faces == map[] && clock == 0
    {
      persons, faces, clock := map[], map[], 0;
    }

    /** `select(Person).where(Person.name == name).scalar_one_or_none()`. */
    method FindPersonByName(name: string) returns (r: Option<int>)
      ensures r.Some? ==> r.value in persons && persons[r.value].name == name
      ensures r.None? ==> forall id :: id in persons ==> persons[id].name != name
    {
      r := None;
      var todo := persons.Keys;
      ghost var done: set<int> := {};
      while todo != {}
        invariant done + todo == persons.Keys
        invariant r.Some? ==> r.value in persons && persons[r.value].name == name
        invariant r.None? ==> forall id :: id in done ==> persons[id].name != name
        decreases |todo|
      {
        NonEmptyHasMember(todo);
        var id :| id in todo;
        if persons[id].name == name {
          r := Some(id);
        }
        todo, done := todo - {id}, done + {id};
      }
    }

    /** `get_or_create_person`: an existing name returns that person (its note replaced by
        a non-empty different note); a new name creates exactly one person. */
    method GetOrCreatePerson(name: string, info: Option<string>) returns (id: int)
      requires Valid()
      modifies this
      ensures Valid()
      ensures id in persons && persons[id].name == name
      ensures faces == old(faces)
      ensures id in old(persons) ==>
                && persons == old(persons)[id := WithInfo(old(persons)[id], info)]
                && clock == old(clock)
      ensures id !in old(persons) ==>
                && (forall k :: k in old(persons) ==> old(persons)[k].name != name)
                && persons == old(persons)[id := Person(name, info, clock)]
                && clock == old(clock) + 1
                && (forall k :: k in old(persons) ==> k < id)
    {
      var found := FindPersonByName(name);
      if found.Some? {
        id := found.value;
        persons := persons[id := WithInfo(persons[id], info)];
        return;
      }
      id := NextRowId(persons.Keys);
      clock := clock + 1;
      persons := persons[id := Person(name, info, clock)];
    }

    /** `add_face`: exactly one new face, created after every other, and nothing else. */
    method AddFace(personId: int, embedding: seq<real>, img: Option<FaceEngine.Image>) returns (id: int)
      requires Valid()
      requires personId in persons
      modifies this
      ensures Valid()
      ensures id !in old(faces) && faces == old(faces)[id := FaceEmb(personId, embedding, img, clock)]
      ensures forall k :: k in old(faces) ==> k < id && old(faces)[k].createdAt < clock
      ensures persons == old(persons) && clock == old(clock) + 1
    {
      id := NextRowId(faces.Keys);
      clock := clock + 1;
      faces := faces[id := FaceEmb(personId, embedding, img, clock)];
    }

    /** `delete_person`: removes the person and, by the cascade, every face it owns;
        an unknown id changes nothing. */
    method DeletePerson(personId: int)
      requires Valid()
      modifies this
      ensures Valid()
      ensures persons == old(persons) - {personId}
      ensures forall k :: k in faces <==> k in old(faces) && old(faces)[k].personId != personId
      ensures forall k :: k in faces ==> faces[k] == old(faces)[k]
      ensures FacesOf(faces, personId) == {}
      ensures personId !in old(persons) ==> faces == old(faces)
      ensures clock == old(clock)
    {
      if personId in persons {
        persons := persons - {personId};
        faces := map k | k in faces && faces[k].personId != personId :: faces[k];
      }
    }

    /** `delete_face`: removes that one face; an unknown id changes nothing. */
    method DeleteFace(faceId: int)
      requires Valid()
      modifies this
      ensures Valid()
      ensures faces == old(faces) - {faceId}
      ensures persons == old(persons) && clock == old(clock)
    {
      faces := faces - {faceId};
    }

    /** `list_persons_with_counts`: every person exactly once (the outer join keeps those
        without faces), with the number of faces it owns, in ascending name order. */
    method ListPersonsWithCounts() returns (rows: seq<PersonRow>)
      requires Valid()
      ensures forall r :: r in rows ==> r.id in persons && r == PersonRow(r.id, persons[r.id], CountOf(faces, r.id))
      ensures forall id :: id in persons ==> PersonRow(id, persons[id], CountOf(faces, id)) in rows
      ensures forall i, j :: 0 <= i < j < |rows| ==> rows[i].id != rows[j].id
      ensures SortedByName(rows)
    {
      rows := [];
      var todo := persons.Keys;
      ghost var done: set<int> := {};
      while todo != {}
        invariant done + todo == persons.Keys && done !! todo
        invariant forall r :: r in rows ==> r.id in done && r == PersonRow(r.id, persons[r.id], CountOf(faces, r.id))
        invariant forall id :: id in done ==> PersonRow(id, persons[id], CountOf(faces, id)) in rows
        invariant SortedByName(rows)
        decreases |todo|
      {
        NonEmptyHasMember(todo);
        var id :| id in todo;
        rows := InsertByName(rows, PersonRow(id, persons[id], CountOf(faces, id)));
        todo, done := todo - {id}, done + {id};
      }
      forall i, j | 0 <= i < j < |rows|
        ensures rows[i].id != rows[j].id
      {
        assert rows[i] in rows && rows[j] in rows;
        NameBeforeIrreflexive(rows[i].person.name);
      }
    }

    /** `list_faces_for_person`: exactly the faces owned by `personId`, newest first. */
    method ListFacesForPerson(personId: int) returns (rows: seq<FaceRow>)
      requires Valid()
      ensures forall r :: r in rows ==> r.id in faces && r == FaceRow(r.id, faces[r.id]) && r.face.personId == personId
      ensures forall k :: k in faces && faces[k].personId == personId ==> FaceRow(k, faces[k]) in rows
      ensures NewestFirst(rows)
    {
      rows := [];
      var todo := faces.Keys;
      ghost var done: set<int> := {};
      while todo != {}
        invariant done + todo == faces.Keys && done !! todo
        invariant forall r :: r in rows ==> r.id in done && r == FaceRow(r.id, faces[r.id]) && r.face.personId == personId
        invariant forall k :: k in done && faces[k].personId == personId ==> FaceRow(k, faces[k]) in rows
        invariant NewestFirst(rows)
        decreases |todo|
      {
        NonEmptyHasMember(todo);
        var id :| id in todo;
        if faces[id].personId == personId {
          rows := InsertNewestFirst(rows, FaceRow(id, faces[id]));
        }
        todo, done := todo - {id}, done + {id};
      }
    }
  }

  // ---------------------------------------------------------------- counts add up

  function SumCounts(rows: seq<PersonRow>): nat
  {
    if rows == [] then 0 else SumCounts(rows[..|rows| - 1]) + rows[|rows| - 1].count
  }

  function RowIds(rows: seq<PersonRow>): set<int>
  {
    if rows == [] then {} else RowIds(rows[..|rows| - 1]) + {rows[|rows| - 1].id}
  }

  /** The faces owned by any of `ids`. */
  function OwnedBy(faces: map<int, FaceEmb>, ids: set<int>): set<int>
  {
    set k | k in faces && faces[k].personId in ids
  }

  lemma {:induction false} RowIdsMembers(rows: seq<PersonRow>, x: int)
    ensures x in RowIds(rows) <==> exists i :: 0 <= i < |rows| && rows[i].id == x
  {
    if rows != [] {
      var init := rows[..|rows| - 1];
      RowIdsMembers(init, x);
      if x in RowIds(init) {
        var i :| 0 <= i < |init| && init[i].id == x;
        assert rows[i].id == x;
      }
      if exists i :: 0 <= i < |rows| && rows[i].id == x {
        var i :| 0 <= i < |rows| && rows[i].id == x;
        if i < |init| {
          assert init[i].id == x;
        }
      }
    }
  }

  lemma {:induction false} SumCountsOwned(faces: map<int, FaceEmb>, rows: seq<PersonRow>)
    requires forall i :: 0 <= i < |rows| ==> rows[i].count == CountOf(faces, rows[i].id)
    requires forall i, j :: 0 <= i < j < |rows| ==> rows[i].id != rows[j].id
    ensures SumCounts(rows) == |OwnedBy(faces, RowIds(rows))|
  {
    if rows == [] {
      assert OwnedBy(faces, {}) == {};
    } else {
      var init, last := rows[..|rows| - 1], rows[|rows| - 1];
      SumCountsOwned(faces, init);
      RowIdsMembers(init, last.id);
      var a, b := OwnedBy(faces, RowIds(init)), FacesOf(faces, last.id);
      assert OwnedBy(faces, RowIds(rows)) == a + b;
      assert a * b == {};
    }
  }

  /** The counts of `list_persons_with_counts` account for every face exactly once. */
  lemma CountsAccountForEveryFace(persons: map<int, Person>, faces: map<int, FaceEmb>, rows: seq<PersonRow>)
    requires NoOrphans(persons, faces)
    requires forall r :: r in rows ==> r.count == CountOf(faces, r.id)
    requires forall id :: id in persons ==> PersonRow(id, persons[id], CountOf(faces, id)) in rows
    requires forall i, j :: 0 <= i < j < |rows| ==> rows[i].id != rows[j].id
    ensures SumCounts(rows) == |faces|
  {
    forall i | 0 <= i < |rows|
      ensures rows[i].count == CountOf(faces, rows[i].id)
    {
      assert rows[i] in rows;
    }
    SumCountsOwned(faces, rows);
    forall k | k in faces
      ensures faces[k].personId in RowIds(rows)
    {
      var p := faces[k].personId;
      var i :| 0 <= i < |rows| && rows[i] == PersonRow(p, persons[p], CountOf(faces, p));
      RowIdsMembers(rows, p);
    }
    assert OwnedBy(faces, RowIds(rows)) == faces.Keys;
  }
}
