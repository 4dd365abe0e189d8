# Student roster service, modelled in Dafny

This project models the roster service of a small Spring application. The service keeps student records in a document store keyed by id. The model covers:

- the seed list and `init`, which empties the store and saves three fixed records;
- `getAll` and `getById`;
- the two full-record escape hatches `create(Student)` and `update(Student)`, which save a record verbatim;
- governed creation `create(StudentCreateRequest)`, which refuses a gender that is already stored, stamps the creation time and starts an empty update history;
- governed update `update(StudentUpdateRequest)`, which keeps the stored id and creation date, takes name, age and gender from the request and appends one timestamp to the history;
- `deleteById`;
- the `Student` record with its two constructors and its id-only `equals` and `hashCode`.

Modules, one per component:

- `Wrappers` (`wrappers.dfy`): `Option`, standing for a Java reference that may be null.
- `StudentModel` (`student.dfy`): the `Student` datatype, the constructors, `Equals` over any object, and `HashCode`. `HashCode` is Java's `String.hashCode` of the id, with 32-bit wrap-around written out.
- `ObjectIds` (`object_ids.dfy`): ids for records saved without one. They are serial numbers written as zero-padded decimal, at least 24 characters long, so they never equal a short literal id such as `"2"` or `"3"`. A round-trip lemma makes them injective. `FreshSerial` searches upward from the store's counter until it finds an id that is not already a key.
- `StudentStore` (`student_repository.dfy`): the repository, a class whose `documents: map<string, Student>` field holds the store. It has insert-or-replace `Save`, `SaveAll`, `FindById`, `FindAll`, `ExistsByGender` ("some stored record has this gender"), `DeleteById` and `DeleteAll`. Its invariant is that every record is stored under its own id. The pure functions `Persisted` and `SavedAll` specify its saves.
- `StudentService` (`student_service.dfy`): the service class. It holds the repository and the seed list. Its state-changing methods are proved against the pure functions `Persisted`, `SavedAll`, `CreatedRecord`, `UpdatedRecord` and `GovernedUpdate`. `UpdatedAll`, a sequence of governed updates, exists only for the lemmas about repeated updates.

The clock is not read. Governed creation and update take `now` as an integer timestamp. The ordering lemmas assume a clock that does not go backwards.

When `saveAll` saves an entity that has no id, it writes the generated id into that same entity. So after `init`, the seed record "Andrew" carries its generated id, and a later `init` saves it under that id again. The model captures this by replacing the seed list with the saved forms, and the seed-list invariant allows the first record either no id or a long generated one.

Governed creation checks neither the name nor the age, and the model has no such check. The tests at `src/test/java/edu/prydatkin/testingprydatkin/service/StudentServiceTest.java:70-83` expect an exception for a null or empty name, which this code would not raise.

## Model

| member | source | states |
|---|---|---|
| `StudentModel.NewStudent` | src/main/java/edu/prydatkin/testingprydatkin/model/Student.java:41-45 | the three-argument constructor sets name, age and gender and leaves id, createDate and updateDate unset |
| `StudentModel.NewStudentWithId` | src/main/java/edu/prydatkin/testingprydatkin/model/Student.java:47-52 | the four-argument constructor also sets the id, and leaves both dates unset |
| `StudentModel.ConstructorsAgreeButForId` | src/main/java/edu/prydatkin/testingprydatkin/model/Student.java:41-52 | the two constructors build the same record except for the id |
| `StudentModel.Equals` | src/main/java/edu/prydatkin/testingprydatkin/model/Student.java:54-59 | requires the receiver to have an id; true exactly when the argument is a Student whose id is that same string; a non-Student is never equal |
| `StudentModel.EqualsIgnoresOtherFields` | src/main/java/edu/prydatkin/testingprydatkin/model/Student.java:54-59 | two Students are equal exactly when their ids are equal, whatever their other fields |
| `StudentModel.EqualsIsEquivalence` | src/main/java/edu/prydatkin/testingprydatkin/model/Student.java:54-59 | on records with ids, equality is reflexive, symmetric and transitive |
| `StudentModel.WrapInt32` | src/main/java/edu/prydatkin/testingprydatkin/model/Student.java:61-64 | the result is in the Java `int` range and congruent to the input modulo 2^32 |
| `StudentModel.StringHash` | src/main/java/edu/prydatkin/testingprydatkin/model/Student.java:63 | the string hash of the id is a Java `int` |
| `StudentModel.StringHashIsPowerSum` | src/main/java/edu/prydatkin/testingprydatkin/model/Student.java:63 | the wrapped hash equals the sum of s[i]·31^(n-1-i), modulo 2^32 |
| `StudentModel.HashCode` | src/main/java/edu/prydatkin/testingprydatkin/model/Student.java:61-64 | requires an id; the hash is a Java `int` determined by the id alone, namely that sum modulo 2^32 |
| `StudentModel.EqualsImpliesEqualHashCodes` | src/main/java/edu/prydatkin/testingprydatkin/model/Student.java:54-64 | equal Students have equal hash codes |
| `ObjectIds.ObjectId` | src/test/java/edu/prydatkin/testingprydatkin/TestingPrydatkinRepositoryTests.java:71 | a generated id is made of digits and is at least 24 characters long |
| `ObjectIds.ObjectIdLength` | src/test/java/edu/prydatkin/testingprydatkin/TestingPrydatkinRepositoryTests.java:71 | a serial below 10^24 gives an id of exactly 24 characters |
| `ObjectIds.ObjectIdRoundTrip` | src/test/java/edu/prydatkin/testingprydatkin/TestingPrydatkinRepositoryTests.java:64-75 | reading a generated id back as a number gives its serial |
| `ObjectIds.ObjectIdInjective` | src/test/java/edu/prydatkin/testingprydatkin/TestingPrydatkinRepositoryTests.java:64-75 | distinct serials give distinct ids |
| `ObjectIds.FreshSerial` | src/test/java/edu/prydatkin/testingprydatkin/TestingPrydatkinRepositoryTests.java:64-75 | returns the first serial, from the counter upwards, whose id is not already a key |
| `StudentStore.Persisted` | src/main/java/edu/prydatkin/testingprydatkin/service/StudentService.java:47 | `save` keeps every field; a record with an id keeps it; one without gets a new id that is not a key and is at least 24 characters long |
| `StudentStore.SavedAll` | src/main/java/edu/prydatkin/testingprydatkin/service/StudentService.java:40 | saving a list in order returns one saved form per element and keeps every record under its own id |
| `StudentStore.SavedAllForms` | src/main/java/edu/prydatkin/testingprydatkin/service/StudentService.java:40 | each saved form is its list element with every field kept and an id present; an element with an id is saved unchanged; the saved id is a key of the new store |
| `StudentStore.SaveWithIdReplaces` | src/main/java/edu/prydatkin/testingprydatkin/service/StudentService.java:59 | a record with an id is stored as given under that id; the store grows only if that id was new |
| `StudentStore.ValuesCount` | src/main/java/edu/prydatkin/testingprydatkin/service/StudentService.java:43 | when every record is stored under its own id, there are as many records as keys |
| `StudentStore.StudentRepository.constructor` | src/main/java/edu/prydatkin/testingprydatkin/repository/StudentRepository.java:18 | a new repository is an empty, well-keyed store |
| `StudentStore.StudentRepository.FindById` | src/main/java/edu/prydatkin/testingprydatkin/service/StudentService.java:45 | a result exactly when the id is a key, and then the record stored under it |
| `StudentStore.StudentRepository.FindAll` | src/main/java/edu/prydatkin/testingprydatkin/service/StudentService.java:43 | exactly the records some key holds |
| `StudentStore.StudentRepository.ExistsByGender` | src/main/java/edu/prydatkin/testingprydatkin/repository/StudentRepository.java:19 | true exactly when some stored record has that gender |
| `StudentStore.StudentRepository.Save` | src/main/java/edu/prydatkin/testingprydatkin/repository/StudentRepository.java:18 | insert or replace at the saved id, as `Persisted` says; no other entry changes |
| `StudentStore.StudentRepository.SaveAll` | src/main/java/edu/prydatkin/testingprydatkin/service/StudentService.java:40 | the new store, counter and saved forms are those of `SavedAll` |
| `StudentStore.StudentRepository.DeleteById` | src/main/java/edu/prydatkin/testingprydatkin/service/StudentService.java:61 | removes exactly that key; an absent key leaves the store unchanged |
| `StudentStore.StudentRepository.DeleteAll` | src/main/java/edu/prydatkin/testingprydatkin/service/StudentService.java:39 | the store becomes empty |
| `StudentService.MapToStudent` | src/main/java/edu/prydatkin/testingprydatkin/service/StudentService.java:63-66 | the new record takes name, age and gender from the request and has no id, no createDate and no history |
| `StudentService.CreatedRecord` | src/main/java/edu/prydatkin/testingprydatkin/service/StudentService.java:53-55 | the record handed to `save` has no id, the request's name, age and gender, createDate equal to now and an empty history |
| `StudentService.UpdatedRecord` | src/main/java/edu/prydatkin/testingprydatkin/service/StudentService.java:71-84 | the rebuilt record has the request's id, name, age and gender and the stored createDate; its history is the stored one (empty if null) followed by now |
| `StudentService.GovernedUpdate` | src/main/java/edu/prydatkin/testingprydatkin/service/StudentService.java:68-88 | an unknown id gives no result and no change; otherwise the rebuilt record replaces the stored one and keeps its stored id and createDate, so earlier history entries are not modified |
| `StudentService.UpdatesAppendTimes` | src/main/java/edu/prydatkin/testingprydatkin/service/StudentService.java:71-85 | successive governed updates of one id append exactly their timestamps, in order; the keys, the createDate and every other record are unchanged |
| `StudentService.SortedAppend` | src/main/java/edu/prydatkin/testingprydatkin/service/StudentService.java:75 | appending non-decreasing timestamps, none earlier than the last entry, keeps a history sorted |
| `StudentService.UpdatesAfterCreation` | src/main/java/edu/prydatkin/testingprydatkin/service/StudentService.java:71-75 | N updates of a governed-created record leave exactly N entries; with a non-decreasing clock they are sorted, and all are after createDate when the clock passed it |
| `StudentService.UpdatesKeepHistorySorted` | src/main/java/edu/prydatkin/testingprydatkin/service/StudentService.java:71-75 | updates with a non-decreasing clock keep a sorted history sorted |
| `StudentService.StoredGenderIsTaken` | src/main/java/edu/prydatkin/testingprydatkin/service/StudentService.java:50-52 | once a record is stored, its gender is taken, so a later governed creation with that gender is refused |
| `StudentService.SeedStoresThree` | src/main/java/edu/prydatkin/testingprydatkin/service/StudentService.java:29-41 | saving the seed list into an empty store yields exactly its three records; the keys that hold "Male" are the generated id and "3" |
| `StudentService.StudentService.constructor` | src/main/java/edu/prydatkin/testingprydatkin/service/StudentService.java:29-34 | the seed list is Andrew (no id), then "2" Victoria and "3" Borys |
| `StudentService.StudentService.Init` | src/main/java/edu/prydatkin/testingprydatkin/service/StudentService.java:37-41 | whatever the store held, it then holds exactly the three seed records, each under its id, and two of them are "Male"; each seed record keeps all its fields, and Andrew keeps an id it already had |
| `StudentService.StudentService.GetAll` | src/main/java/edu/prydatkin/testingprydatkin/service/StudentService.java:43 | returns every stored record once, one per key, in no order |
| `StudentService.StudentService.GetById` | src/main/java/edu/prydatkin/testingprydatkin/service/StudentService.java:45 | returns a result exactly when the id is stored, and that result is the record under that id |
| `StudentService.StudentService.Create` | src/main/java/edu/prydatkin/testingprydatkin/service/StudentService.java:47 | stores the record verbatim at its id, or at a fresh id if it has none; no other entry changes; no gender check and no timestamps |
| `StudentService.StudentService.CreateFromRequest` | src/main/java/edu/prydatkin/testingprydatkin/service/StudentService.java:49-57 | a stored gender gives no result and no write; otherwise exactly one new record is stored and returned, under a fresh id of at least 24 characters, as `CreatedRecord` describes |
| `StudentService.StudentService.Update` | src/main/java/edu/prydatkin/testingprydatkin/service/StudentService.java:59 | stores the record verbatim, like `Create`; no history entry is added |
| `StudentService.StudentService.DeleteById` | src/main/java/edu/prydatkin/testingprydatkin/service/StudentService.java:61 | removes exactly that key and never fails; afterwards `GetById` of that id gives no result |
| `StudentService.StudentService.UpdateFromRequest` | src/main/java/edu/prydatkin/testingprydatkin/service/StudentService.java:68-88 | the new store and the result are those of `GovernedUpdate`; the id counter is unchanged |

## Left out

- HTTP dispatch in `StudentRestController.java`: it only routes requests to the service.
- The document database engine: the store is a map, and store failures are not modelled.
- The order of `findAll`: `GetAll` returns a set.
- Real ObjectId generation (timestamp, random value and counter, written in hex): it is replaced by zero-padded decimal serials that are guaranteed fresh.
- `AuditMetadata.java` and `AuditionConfiguration.java`: auditing wiring that the service does not use.
- Spring lifecycle and injection (`@PostConstruct`, `@Service`, `@RequiredArgsConstructor`): `init` is an ordinary method, and the constructor takes the repository.
- The unsynchronised read-then-write in governed update: concurrency is out of scope, and every operation runs alone.
- Wall-clock time: `now` is a parameter.
- Validation of name and age: the code has none. `StudentCreateRequest` and `StudentUpdateRequest` are not part of this model except as their four fields.
- Null names and genders: `name` and `gender` are always strings. Only the id, createDate and updateDate may be absent.
- `age` is an unbounded integer rather than a 32-bit `int`.
- `StudentModel.StringHash`: each `char` counts as one unit. A character outside the Basic Multilingual Plane does not expand into two UTF-16 code units as it would in Java.
- `ObjectIds.ObjectId`: exactly 24 characters only for serials below 10^24 (see `ObjectIdLength`). Beyond that it is longer, and it is always at least 24.
- `StudentService.StudentService.GetById`, `StudentService.StudentService.DeleteById`, `StudentService.StudentService.UpdateFromRequest`: the id is always a string, so the `IllegalArgumentException` the repository throws for a null id (StudentService.java:45, 61, 69) is not modelled. The `NullPointerException` that a null request raises at `request.gender()` or `request.id()` is not modelled either.
- In-place aliasing of the history list: governed update mutates the list it read back from the store. The database returns a copy, so in the model the stored history is a value.
