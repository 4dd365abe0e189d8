/**
 * The document store behind the service: records kept by id, with
 * insert-or-replace `save`, `saveAll`, lookups, deletes and the
 * `existsByGender` query. Ids missing on save are generated by a serial
 * counter (see ObjectIds).
 */
module StudentStore {
  import opened Wrappers
  import opened StudentModel
  import ObjectIds

  /** Every record is stored under its own id. */
  ghost predicate WellKeyed(docs: map<string, Student>)
  {
    forall k :: k in docs ==> docs[k].id == Some(k)
  }

  /** Some stored record has this gender. */
  predicate HasGender(docs: map<string, Student>, gender: string)
  {
    exists k :: k in docs && docs[k].gender == gender
  }

  /**
   * The form in which `save` stores `s` when the counter stands at `serial`,
   * and the counter afterwards: a record with an id is stored as it is; one
   * without gets a generated id that is not yet a key and is never short.
   */
  function Persisted(docs: map<string, Student>, serial: nat, s: Student): (r: (Student, nat))
    ensures r.0.id.Some? && r.0 == s.(id := r.0.id)
    ensures s.id.Some? ==> r == (s, serial)
    ensures s.id.None? ==> r.0.id.value !in docs && |r.0.id.value| >= ObjectIds.ID_LENGTH && serial < r.1
  {
    if s.id.Some? then (s, serial)
    else
      var n := ObjectIds.FreshSerial(docs.Keys, serial, {});
      (s.(id := Some(ObjectIds.ObjectId(n))), n + 1)
  }

  /** The store, counter and saved records after saving `list` in order. */
  function SavedAll(docs: map<string, Student>, serial: nat, list: seq<Student>)
    : (r: (map<string, Student>, nat, seq<Student>))
    ensures |r.2| == |list|
    ensures WellKeyed(docs) ==> WellKeyed(r.0)
  {
    if list == [] then (docs, serial, [])
    else
      var (d, n, saved) := SavedAll(docs, serial, list[..|list| - 1]);
      var (s, n') := Persisted(d, n, list[|list| - 1]);
      (d[s.id.value := s], n', saved + [s])
  }

  /**
   * Saving a list stores each element with every field kept: an element with
   * an id keeps it, one without gets a generated id, and the saved id is a key.
   */
  lemma {:induction false} SavedAllForms(docs: map<string, Student>, serial: nat, list: seq<Student>)
    ensures var r := SavedAll(docs, serial, list);
      forall i :: 0 <= i < |list| ==>
        && r.2[i].id.Some? && r.2[i] == list[i].(id := r.2[i].id)
        && r.2[i].id.value in r.0
        && (list[i].id.Some? ==> r.2[i] == list[i])
  {
    if list != [] {
      var n := |list| - 1;
      SavedAllForms(docs, serial, list[..n]);
      var r := SavedAll(docs, serial, list[..n]);
      var p := Persisted(r.0, r.1, list[n]);
      SavedAllStep(docs, serial, list);
      SavedFormsSnoc(list, r.0, r.2, p.0);
    }
  }

  /** The per-element facts of `SavedAllForms` survive saving one more element. */
  lemma SavedFormsSnoc(list: seq<Student>, docs: map<string, Student>, saved: seq<Student>, s: Student)
    requires list != [] && |saved| == |list| - 1
    requires forall i :: 0 <= i < |saved| ==>
      && saved[i].id.Some? && saved[i] == list[i].(id := saved[i].id)
      && saved[i].id.value in docs
      && (list[i].id.Some? ==> saved[i] == list[i])
    requires var last := list[|list| - 1];
      s.id.Some? && s == last.(id := s.id) && (last.id.Some? ==> s == last)
    ensures var d', saved' := docs[s.id.value := s], saved + [s];
      forall i :: 0 <= i < |list| ==>
        && saved'[i].id.Some? && saved'[i] == list[i].(id := saved'[i].id)
        && saved'[i].id.value in d'
        && (list[i].id.Some? ==> saved'[i] == list[i])
  {
    var d', saved' := docs[s.id.value := s], saved + [s];
    forall i | 0 <= i < |list|
      ensures && saved'[i].id.Some? && saved'[i] == list[i].(id := saved'[i].id)
              && saved'[i].id.value in d'
              && (list[i].id.Some? ==> saved'[i] == list[i])
    {
      if i < |saved| {
        assert saved'[i] == saved[i];
      } else {
        assert saved'[i] == s;
      }
    }
  }

  /** One step of `SavedAll`: the last element is saved into the store the others left. */
  lemma SavedAllStep(docs: map<string, Student>, serial: nat, list: seq<Student>)
    requires list != []
    ensures var n := |list| - 1;
      var r := SavedAll(docs, serial, list[..n]);
      var p := Persisted(r.0, r.1, list[n]);
      SavedAll(docs, serial, list) == (r.0[p.0.id.value := p.0], p.1, r.2 + [p.0])
  {
  }

  /** A record with an id lands under that id, and replaces whatever was there. */
  lemma SaveWithIdReplaces(docs: map<string, Student>, serial: nat, s: Student)
    requires s.id.Some?
    ensures Persisted(docs, serial, s).0 == s
    ensures |docs[s.id.value := s]| == if s.id.value in docs then |docs| else |docs| + 1
  {
  }

  /** On a well-keyed store distinct keys hold distinct records, so there are as many records as keys. */
  lemma {:induction false} ValuesCount(docs: map<string, Student>)
    requires WellKeyed(docs)
    ensures |docs.Values| == |docs|
  {
    if docs != map[] {
      var k :| k in docs;
      var rest := docs - {k};
      ValuesCount(rest);
      assert docs.Values == rest.Values + {docs[k]};
      assert docs[k] !in rest.Values;
      assert docs.Keys == rest.Keys + {k};
    }
  }

  class StudentRepository {
    /** The stored records, by id. */
    var documents: map<string, Student>
    /** The next serial the id generator tries. */
    var nextSerial: nat

    ghost predicate Valid()
      reads this
    {
      WellKeyed(documents)
    }

    constructor ()
      ensures Valid() && documents == map[] && nextSerial == 0
    {
      documents := map[];
      nextSerial := 0;
    }

    /** `findById`: the record under `id`, or none. */
    function FindById(id: string): (r: Option<Student>)
      reads this
      ensures r.Some? <==> id in documents
      ensures r.Some? ==> r.value == documents[id]
    {
      if id in documents then Some(documents[id]) else None
    }

    /** `findAll`, without an order: exactly the records some key holds. */
    function FindAll(): (r: set<Student>)
      reads this
      ensures forall s :: s in r <==> exists k :: k in documents && documents[k] == s
    {
      documents.Values
    }

    /** `existsByGender`: some stored record has this gender. */
    function ExistsByGender(gender: string): (b: bool)
      reads this
      ensures b <==> exists s :: s in documents.Values && s.gender == gender
    {
      HasGender(documents, gender)
    }

    /** `save`: insert or replace by id, generating an id when there is none. */
    method Save(s: Student) returns (saved: Student)
      requires Valid()
      modifies this
      ensures Valid()
      ensures (saved, nextSerial) == Persisted(old(documents), old(nextSerial), s)
      ensures documents == old(documents)[saved.id.value := saved]
    {
      var (stored, n) := Persisted(documents, nextSerial, s);
      saved := stored;
      documents := documents[saved.id.value := saved];
      nextSerial := n;
    }

    /** `saveAll`: `save` on each record in turn; the saved forms are returned. */
    method SaveAll(list: seq<Student>) returns (saved: seq<Student>)
      requires Valid()
      modifies this
      ensures Valid()
      ensures (documents, nextSerial, saved) == SavedAll(old(documents), old(nextSerial), list)
    {
      saved := [];
      for i := 0 to |list|
        invariant Valid()
        invariant (documents, nextSerial, saved) == SavedAll(old(documents), old(nextSerial), list[..i])
      {
        assert list[..i + 1][..i] == list[..i];
        var s := Save(list[i]);
        saved := saved + [s];
      }
      assert list[..|list|] == list;
    }

    /** `deleteById`: removes that key; an absent key leaves the store as it was. */
    method DeleteById(id: string)
      requires Valid()
      modifies this
      ensures Valid()
      ensures documents == old(documents) - {id} && nextSerial == old(nextSerial)
      ensures id !in old(documents) ==> documents == old(documents)
    {
      documents := documents - {id};
    }

    /** `deleteAll`. */
    method DeleteAll()
      requires Valid()
      modifies this
      ensures Valid()
      ensures documents == map[] && nextSerial == old(nextSerial)
    {
      documents := map[];
    }
  }
}
