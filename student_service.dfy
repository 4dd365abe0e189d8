/**
 * The roster service: the seed list and `init`, lookups, the two
 * full-record escape hatches, governed creation (one record per gender,
 * stamped with its creation time and an empty history) and governed update
 * (one history entry per update), and delete.
 */
module StudentService {
  import opened Wrappers
  import opened StudentModel
  import opened StudentStore
  import ObjectIds

  datatype StudentCreateRequest = StudentCreateRequest(name: string, age: int, gender: string)

  datatype StudentUpdateRequest = StudentUpdateRequest(id: string, name: string, age: int, gender: string)

  /** The update history of a record; a missing history reads as empty. */
  function History(s: Student): seq<Timestamp>
  {
    s.updateDate.GetOr([])
  }

  ghost predicate Sorted(ts: seq<Timestamp>)
  {
    forall i, j :: 0 <= i < j < |ts| ==> ts[i] <= ts[j]
  }

  /**
   * The seed list, in the shape it keeps: three fixed records, of which the
   * first has no literal id and carries the generated one once it is saved.
   */
  ghost predicate IsSeedList(list: seq<Student>)
  {
    && |list| == 3
    && list[0] == NewStudent("Andrew", 17, "Male").(id := list[0].id)
    && (list[0].id.Some? ==> |list[0].id.value| >= ObjectIds.ID_LENGTH)
    && list[1] == NewStudentWithId("2", "Victoria", 17, "Female")
    && list[2] == NewStudentWithId("3", "Borys", 19, "Male")
  }

  /** `mapToStudent`: the request's three fields through the three-argument constructor. */
  function MapToStudent(request: StudentCreateRequest): (s: Student)
    ensures s.name == request.name && s.age == request.age && s.gender == request.gender
    ensures s.id == None && s.createDate == None && s.updateDate == None
  {
    NewStudent(request.name, request.age, request.gender)
  }

  /** What governed creation hands to `save`: the mapped record, created at `now`, with an empty history. */
  function CreatedRecord(request: StudentCreateRequest, now: Timestamp): (s: Student)
    ensures s.id == None
    ensures s.name == request.name && s.age == request.age && s.gender == request.gender
    ensures s.createDate == Some(now) && s.updateDate == Some([])
  {
    MapToStudent(request).(createDate := Some(now)).(updateDate := Some([]))
  }

  /** The record governed update builds from the stored one. */
  function UpdatedRecord(persisted: Student, request: StudentUpdateRequest, now: Timestamp): (s: Student)
    ensures s.id == Some(request.id) && s.createDate == persisted.createDate
    ensures s.name == request.name && s.age == request.age && s.gender == request.gender
    ensures s.updateDate.Some? && History(s) == History(persisted) + [now]
  {
    var updateDates := if persisted.updateDate.None? then [] else persisted.updateDate.value;
    Student(Some(request.id), request.name, request.age, request.gender,
            persisted.createDate, Some(updateDates + [now]))
  }

  /**
   * Governed update on a store: refused with no result and no change when the
   * id is absent; otherwise the rebuilt record replaces the stored one and is
   * returned.
   */
  function GovernedUpdate(docs: map<string, Student>, request: StudentUpdateRequest, now: Timestamp)
    : (r: (map<string, Student>, Option<Student>))
    ensures request.id !in docs ==> r == (docs, None)
    ensures request.id in docs ==>
      && r.1.Some?
      && r.0 == docs[request.id := r.1.value]
      && r.1.value.createDate == docs[request.id].createDate
      && r.1.value.name == request.name && r.1.value.age == request.age && r.1.value.gender == request.gender
      && History(r.1.value) == History(docs[request.id]) + [now]
    ensures WellKeyed(docs) ==> WellKeyed(r.0) && (request.id in docs ==> r.1.value.id == docs[request.id].id)
  {
    if request.id in docs then
      var updated := UpdatedRecord(docs[request.id], request, now);
      (docs[request.id := updated], Some(updated))
    else
      (docs, None)
  }

  /** The store after governed updates `requests[i]` at times `times[i]`, in order. */
  function UpdatedAll(docs: map<string, Student>, requests: seq<StudentUpdateRequest>, times: seq<Timestamp>)
    : map<string, Student>
    requires |requests| == |times|
  {
    if requests == [] then docs
    else
      var n := |requests| - 1;
      GovernedUpdate(UpdatedAll(docs, requests[..n], times[..n]), requests[n], times[n]).0
  }

  /**
   * Successive governed updates of one stored id append exactly their
   * timestamps, in order, to its history; earlier entries, the id's
   * creation date and every other record stay as they were.
   */
  lemma {:induction false} UpdatesAppendTimes(
    docs: map<string, Student>, id: string, requests: seq<StudentUpdateRequest>, times: seq<Timestamp>)
    requires id in docs
    requires |requests| == |times|
    requires forall i :: 0 <= i < |requests| ==> requests[i].id == id
    ensures var after := UpdatedAll(docs, requests, times);
      && after.Keys == docs.Keys
      && History(after[id]) == History(docs[id]) + times
      && after[id].createDate == docs[id].createDate
      && (forall k :: k in docs && k != id ==> after[k] == docs[k])
  {
    if requests != [] {
      var n := |requests| - 1;
      UpdatesAppendTimes(docs, id, requests[..n], times[..n]);
      assert times[..n] + [times[n]] == times;
    }
  }

  /** Appending a non-decreasing run that starts no earlier than the last entry keeps a history sorted. */
  lemma SortedAppend(h: seq<Timestamp>, ts: seq<Timestamp>)
    requires Sorted(h) && Sorted(ts)
    requires h != [] && ts != [] ==> h[|h| - 1] <= ts[0]
    ensures Sorted(h + ts)
  {
  }

  /**
   * N governed updates of a record that governed creation stored at time
   * `created` leave a history of exactly N entries; under a non-decreasing
   * clock that runs past `created` the entries are in order and all later
   * than the creation date.
   */
  lemma UpdatesAfterCreation(
    docs: map<string, Student>, id: string, created: Timestamp,
    requests: seq<StudentUpdateRequest>, times: seq<Timestamp>)
    requires id in docs && docs[id].createDate == Some(created) && History(docs[id]) == []
    requires |requests| == |times|
    requires forall i :: 0 <= i < |requests| ==> requests[i].id == id
    ensures var after := UpdatedAll(docs, requests, times);
      && id in after
      && |History(after[id])| == |requests|
      && (Sorted(times) ==> Sorted(History(after[id])))
      && ((forall i :: 0 <= i < |times| ==> created < times[i]) ==>
            after[id].createDate == Some(created) &&
            forall i :: 0 <= i < |History(after[id])| ==> created < History(after[id])[i])
  {
    UpdatesAppendTimes(docs, id, requests, times);
    assert [] + times == times;
  }

  /** Updates of a record whose history is sorted, at non-decreasing times no earlier than its last entry, keep it sorted. */
  lemma UpdatesKeepHistorySorted(
    docs: map<string, Student>, id: string, requests: seq<StudentUpdateRequest>, times: seq<Timestamp>)
    requires id in docs && Sorted(History(docs[id]))
    requires |requests| == |times| && Sorted(times)
    requires History(docs[id]) != [] && times != [] ==> History(docs[id])[|History(docs[id])| - 1] <= times[0]
    requires forall i :: 0 <= i < |requests| ==> requests[i].id == id
    ensures var after := UpdatedAll(docs, requests, times);
      id in after && Sorted(History(after[id]))
  {
    UpdatesAppendTimes(docs, id, requests, times);
    SortedAppend(History(docs[id]), times);
  }

  /** A record that is stored makes its gender taken, so a later governed creation with it is refused. */
  lemma StoredGenderIsTaken(docs: map<string, Student>, s: Student)
    requires s.id.Some?
    ensures HasGender(docs[s.id.value := s], s.gender)
  {
    assert docs[s.id.value := s][s.id.value].gender == s.gender;
  }

  /** Saving three records into an empty store, step by step: the first under its kept or generated id, then the other two. */
  lemma SavedThree(serial: nat, seed: seq<Student>)
    requires |seed| == 3 && seed[1].id.Some? && seed[2].id.Some?
    ensures var a := Persisted(map[], serial, seed[0]).0;
      var r := SavedAll(map[], serial, seed);
      && r.0 == map[a.id.value := a][seed[1].id.value := seed[1]][seed[2].id.value := seed[2]]
      && r.2 == [a, seed[1], seed[2]]
  {
    assert seed[..2][..1] == seed[..1] && seed[..3] == seed && seed[..1][..0] == [];
    assert SavedAll(map[], serial, seed[..1][..0]) == (map[], serial, []);
    var p := Persisted(map[], serial, seed[0]);
    var r1 := SavedAll(map[], serial, seed[..1]);
    assert seed[..1][0] == seed[0] && [] + [p.0] == [p.0];
    assert r1 == (map[p.0.id.value := p.0], p.1, [p.0]);
    var r2 := SavedAll(map[], serial, seed[..2]);
    assert seed[..2][1] == seed[1] && [p.0] + [seed[1]] == [p.0, seed[1]];
    assert r2 == (r1.0[seed[1].id.value := seed[1]], p.1, [p.0, seed[1]]);
    var r := SavedAll(map[], serial, seed);
    assert [p.0, seed[1]] + [seed[2]] == [p.0, seed[1], seed[2]];
    assert r == (r2.0[seed[2].id.value := seed[2]], p.1, [p.0, seed[1], seed[2]]);
  }

  /**
   * Saving the seed list into an empty store leaves exactly its three
   * records, two of them "Male", and the seed list keeps its shape.
   */
  lemma SeedStoresThree(serial: nat, seed: seq<Student>)
    requires IsSeedList(seed)
    ensures var (docs, _, saved) := SavedAll(map[], serial, seed);
      && IsSeedList(saved)
      && |docs| == 3
      && (forall i :: 0 <= i < 3 ==> saved[i].id.Some? && saved[i].id.value in docs && docs[saved[i].id.value] == saved[i])
      && docs.Values == {saved[0], saved[1], saved[2]}
      && (set k | k in docs && docs[k].gender == "Male") == {saved[0].id.value, "3"}
  {
    SavedThree(serial, seed);
    var a := Persisted(map[], serial, seed[0]).0;
    ThreeRecords(a, seed[1], seed[2]);
    var (docs, _, saved) := SavedAll(map[], serial, seed);
    forall i | 0 <= i < 3
      ensures saved[i].id.Some? && saved[i].id.value in docs && docs[saved[i].id.value] == saved[i]
    {
      if i == 0 {
        assert saved[i] == a;
      } else if i == 1 {
        assert saved[i] == seed[1];
      } else {
        assert saved[i] == seed[2];
      }
    }
  }

  /** A store holding three records under three distinct ids, the first and last of them Male. */
  lemma ThreeRecords(a: Student, b: Student, c: Student)
    requires a.id.Some? && b.id.Some? && c.id.Some?
    requires a.id.value != b.id.value && a.id.value != c.id.value && b.id.value != c.id.value
    requires a.gender == "Male" && b.gender != "Male" && c.gender == "Male"
    ensures var docs := map[a.id.value := a][b.id.value := b][c.id.value := c];
      && |docs| == 3
      && a.id.value in docs && docs[a.id.value] == a
      && b.id.value in docs && docs[b.id.value] == b
      && c.id.value in docs && docs[c.id.value] == c
      && docs.Values == {a, b, c}
      && (set k | k in docs && docs[k].gender == "Male") == {a.id.value, c.id.value}
  {
    var docs := map[a.id.value := a][b.id.value := b][c.id.value := c];
    assert docs.Keys == {a.id.value, b.id.value, c.id.value};
    assert docs.Values == {a, b, c};
  }

  class StudentService {
    const repository: StudentRepository
    /** The seed list `init` saves. */
    var students: seq<Student>

    ghost predicate Valid()
      reads this, repository
    {
      repository.Valid() && IsSeedList(students)
    }

    /** Builds the seed list: "Andrew" without an id, then "2" and "3". */
    constructor (repository: StudentRepository)
      requires repository.Valid()
      ensures Valid() && this.repository == repository
      ensures students == [NewStudent("Andrew", 17, "Male"),
                           NewStudentWithId("2", "Victoria", 17, "Female"),
                           NewStudentWithId("3", "Borys", 19, "Male")]
    {
      this.repository := repository;
      var list: seq<Student> := [];
      list := list + [NewStudent("Andrew", 17, "Male")];
      list := list + [NewStudentWithId("2", "Victoria", 17, "Female")];
      list := list + [NewStudentWithId("3", "Borys", 19, "Male")];
      students := list;
    }

    /**
     * `init`: empties the store and saves the seed list, bypassing the gender
     * rule. Saving sets the generated id on the seed record that had none.
     */
    method Init()
      requires Valid()
      modifies this, repository
      ensures Valid()
      ensures |repository.documents| == 3
      ensures forall i :: 0 <= i < 3 ==>
        students[i].id.Some? && students[i].id.value in repository.documents &&
        repository.documents[students[i].id.value] == students[i]
      ensures repository.documents.Values == {students[0], students[1], students[2]}
      ensures |set k | k in repository.documents && repository.documents[k].gender == "Male"| == 2
      ensures old(students)[0].id.Some? ==> students[0] == old(students)[0]
      ensures forall i :: 0 <= i < 3 ==> students[i] == old(students)[i].(id := students[i].id)
    {
      repository.DeleteAll();
      SeedStoresThree(repository.nextSerial, students);
      SavedAllForms(map[], repository.nextSerial, students);
      students := repository.SaveAll(students);
      assert students[0].id.value != "3";
    }

    /** `getAll`: every stored record, one per id, in no particular order. */
    function GetAll(): (r: set<Student>)
      requires Valid()
      reads this, repository
      ensures |r| == |repository.documents|
      ensures forall s :: s in r <==>
        s.id.Some? && s.id.value in repository.documents && repository.documents[s.id.value] == s
    {
      ValuesCount(repository.documents);
      repository.FindAll()
    }

    /** `getById`: the record stored under `id`, or no result when there is none. */
    function GetById(id: string): (r: Option<Student>)
      requires Valid()
      reads this, repository
      ensures r.Some? <==> id in repository.documents
      ensures r.Some? ==> r.value == repository.documents[id] && r.value.id == Some(id)
    {
      repository.FindById(id)
    }

    /** `create(Student)`: saves the record as given; no gender check, no timestamps. */
    method Create(student: Student) returns (saved: Student)
      requires Valid()
      modifies repository
      ensures Valid()
      ensures (saved, repository.nextSerial) == Persisted(old(repository.documents), old(repository.nextSerial), student)
      ensures repository.documents == old(repository.documents)[saved.id.value := saved]
    {
      saved := repository.Save(student);
    }

    /**
     * `create(StudentCreateRequest)`: refused, with no result and no write,
     * when a stored record already has the request's gender; otherwise one
     * new record under a fresh id, created at `now` with an empty history.
     */
    method CreateFromRequest(request: StudentCreateRequest, now: Timestamp) returns (r: Option<Student>)
      requires Valid()
      modifies repository
      ensures Valid()
      ensures HasGender(old(repository.documents), request.gender) ==>
        r == None && repository.documents == old(repository.documents) &&
        repository.nextSerial == old(repository.nextSerial)
      ensures !HasGender(old(repository.documents), request.gender) ==>
        && r.Some? && r.value.id.Some?
        && r.value == CreatedRecord(request, now).(id := r.value.id)
        && r.value.id.value !in old(repository.documents)
        && |r.value.id.value| >= ObjectIds.ID_LENGTH
        && repository.documents == old(repository.documents)[r.value.id.value := r.value]
        && |repository.documents| == |old(repository.documents)| + 1
    {
      if repository.ExistsByGender(request.gender) {
        return None;
      }
      var student := MapToStudent(request);
      student := student.(createDate := Some(now));
      student := student.(updateDate := Some([]));
      var saved := repository.Save(student);
      return Some(saved);
    }

    /** `update(Student)`: saves the record as given; no history entry is added. */
    method Update(student: Student) returns (saved: Student)
      requires Valid()
      modifies repository
      ensures Valid()
      ensures (saved, repository.nextSerial) == Persisted(old(repository.documents), old(repository.nextSerial), student)
      ensures repository.documents == old(repository.documents)[saved.id.value := saved]
    {
      saved := repository.Save(student);
    }

    /** `deleteById`: removes that id, if present; afterwards it is not found. */
    method DeleteById(id: string)
      requires Valid()
      modifies repository
      ensures Valid()
      ensures repository.documents == old(repository.documents) - {id}
      ensures id !in old(repository.documents) ==> repository.documents == old(repository.documents)
      ensures GetById(id) == None
    {
      repository.DeleteById(id);
    }

    /**
     * `update(StudentUpdateRequest)`: no result and no write for an unknown
     * id; otherwise the record rebuilt from the request, keeping the stored
     * id and creation date, with `now` appended to its history.
     */
    method UpdateFromRequest(request: StudentUpdateRequest, now: Timestamp) returns (r: Option<Student>)
      requires Valid()
      modifies repository
      ensures Valid()
      ensures (repository.documents, r) == GovernedUpdate(old(repository.documents), request, now)
      ensures repository.nextSerial == old(repository.nextSerial)
    {
      var persisted := repository.FindById(request.id);
      if persisted.Some? {
        var updateDates := persisted.value.updateDate;
        var history: seq<Timestamp>;
        if updateDates.None? {
          history := [];
        } else {
          history := updateDates.value;
        }
        history := history + [now];
        var itemToUpdate := Student(Some(request.id), request.name, request.age, request.gender,
                                    persisted.value.createDate, Some(history));
        var saved := repository.Save(itemToUpdate);
        return Some(saved);
      }
      return None;
    }
  }
}
