/**
 * The persisted student record: its fields, its two constructors, and the
 * identity-only equality and hash code.
 */
module StudentModel {
  import opened Wrappers

  /** A point in time (a `LocalDateTime` in the program), as an integer. */
  type Timestamp = int

  const TWO_POW_31: int := 0x8000_0000
  const TWO_POW_32: int := 0x1_0000_0000

  /** The range of a Java `int`. */
  predicate IsInt32(x: int)
  {
    -TWO_POW_31 <= x < TWO_POW_31
  }

  /**
   * The record. `id`, `createDate` and `updateDate` may be null in the
   * program and are optional here; `updateDate` being absent is distinct
   * from it being an empty history.
   */
  datatype Student = Student(
    id: Option<string>,
    name: string,
    age: int,
    gender: string,
    createDate: Option<Timestamp>,
    updateDate: Option<seq<Timestamp>>)

  /** The three-argument constructor: a record that has no id and no dates yet. */
  function NewStudent(name: string, age: int, gender: string): (s: Student)
    ensures s.name == name && s.age == age && s.gender == gender
    ensures s.id == None && s.createDate == None && s.updateDate == None
  {
    Student(None, name, age, gender, None, None)
  }

  /** The four-argument constructor: like the three-argument one, with an id. */
  function NewStudentWithId(id: string, name: string, age: int, gender: string): (s: Student)
    ensures s.id == Some(id)
    ensures s.name == name && s.age == age && s.gender == gender
    ensures s.createDate == None && s.updateDate == None
  {
    Student(Some(id), name, age, gender, None, None)
  }

  /** The two constructors differ in the id alone. */
  lemma ConstructorsAgreeButForId(id: string, name: string, age: int, gender: string)
    ensures NewStudentWithId(id, name, age, gender) == NewStudent(name, age, gender).(id := Some(id))
  {
  }

  /** The argument of `equals`: any Java object, which is a Student or not (null is not). */
  datatype Object = AStudent(student: Student) | NotAStudent

  /**
   * `equals`: a non-Student is never equal; a Student is equal exactly when
   * its id is the same string as the receiver's. The receiver's id is read
   * without a null check, so it must be present.
   */
  function Equals(self: Student, o: Object): (r: bool)
    requires self.id.Some?
    ensures r <==> o.AStudent? && o.student.id.Some? && o.student.id.value == self.id.value
  {
    match o
    case NotAStudent => false
    case AStudent(other) => other.id == self.id
  }

  /** Equality ignores every field but the id. */
  lemma EqualsIgnoresOtherFields(a: Student, b: Student)
    requires a.id.Some?
    ensures Equals(a, AStudent(b)) <==> a.id == b.id
  {
  }

  /** On records that have ids, `equals` is an equivalence relation. */
  lemma EqualsIsEquivalence(a: Student, b: Student, c: Student)
    requires a.id.Some? && b.id.Some? && c.id.Some?
    ensures Equals(a, AStudent(a))
    ensures Equals(a, AStudent(b)) ==> Equals(b, AStudent(a))
    ensures Equals(a, AStudent(b)) && Equals(b, AStudent(c)) ==> Equals(a, AStudent(c))
  {
  }

  /** Reduces `x` to the Java `int` it becomes under two's complement wrap-around. */
  function WrapInt32(x: int): (r: int)
    ensures IsInt32(r)
    ensures (x - r) % TWO_POW_32 == 0
  {
    var m := x % TWO_POW_32;
    if m < TWO_POW_31 then m else m - TWO_POW_32
  }

  /** `String.hashCode`: h := 31 * h + c over the characters, in 32-bit arithmetic. */
  function StringHash(s: string): (h: int)
    ensures IsInt32(h)
  {
    if s == [] then 0 else WrapInt32(31 * StringHash(s[..|s| - 1]) + s[|s| - 1] as int)
  }

  function Pow(b: int, e: nat): int
  {
    if e == 0 then 1 else b * Pow(b, e - 1)
  }

  /** The documented value of a string hash before wrap-around: the sum of s[i] * 31^(n-1-i). */
  function PowerSum(s: string): int
  {
    if s == [] then 0 else s[0] as int * Pow(31, |s| - 1) + PowerSum(s[1..])
  }

  lemma {:induction false} PowerSumSnoc(s: string, c: char)
    ensures PowerSum(s + [c]) == 31 * PowerSum(s) + c as int
  {
    if s == [] {
      assert PowerSum([c]) == c as int * Pow(31, 0) + PowerSum([]);
    } else {
      var t := s + [c];
      assert t[1..] == s[1..] + [c];
      PowerSumSnoc(s[1..], c);
      assert Pow(31, |t| - 1) == 31 * Pow(31, |s| - 1);
      calc {
        PowerSum(t);
        s[0] as int * Pow(31, |t| - 1) + PowerSum(s[1..] + [c]);
        s[0] as int * (31 * Pow(31, |s| - 1)) + 31 * PowerSum(s[1..]) + c as int;
        { assert s[0] as int * (31 * Pow(31, |s| - 1)) == 31 * (s[0] as int * Pow(31, |s| - 1)); }
        31 * (s[0] as int * Pow(31, |s| - 1) + PowerSum(s[1..])) + c as int;
      }
    }
  }

  /** The wrapped hash agrees with the documented sum modulo 2^32. */
  lemma {:induction false} StringHashIsPowerSum(s: string)
    ensures (StringHash(s) - PowerSum(s)) % TWO_POW_32 == 0
  {
    if s != [] {
      var p, c := s[..|s| - 1], s[|s| - 1];
      assert s == p + [c];
      StringHashIsPowerSum(p);
      PowerSumSnoc(p, c);
      assert StringHash(s) == WrapInt32(31 * StringHash(p) + c as int);
      HornerStepCongruent(StringHash(p), PowerSum(p), c as int, StringHash(s));
    }
  }

  /** If a is congruent to b and w to 31a + c, modulo 2^32, then w is congruent to 31b + c. */
  lemma HornerStepCongruent(a: int, b: int, c: int, w: int)
    requires (a - b) % TWO_POW_32 == 0
    requires (31 * a + c - w) % TWO_POW_32 == 0
    ensures (w - (31 * b + c)) % TWO_POW_32 == 0
  {
    var k := (a - b) / TWO_POW_32;
    var j := (31 * a + c - w) / TWO_POW_32;
    assert a - b == TWO_POW_32 * k;
    assert 31 * a + c - w == TWO_POW_32 * j;
    assert w - (31 * b + c) == 31 * (a - b) - (31 * a + c - w);
    assert 31 * (TWO_POW_32 * k) - TWO_POW_32 * j == TWO_POW_32 * (31 * k - j);
  }

  /** `hashCode`: the hash of the id string; like `equals`, it needs the id. */
  function HashCode(s: Student): (h: int)
    requires s.id.Some?
    ensures IsInt32(h)
    ensures (h - PowerSum(s.id.value)) % TWO_POW_32 == 0
  {
    StringHashIsPowerSum(s.id.value);
    StringHash(s.id.value)
  }

  /** Equal records have equal hash codes, whatever their other fields. */
  lemma EqualsImpliesEqualHashCodes(a: Student, b: Student)
    requires a.id.Some? && b.id.Some?
    requires Equals(a, AStudent(b))
    ensures HashCode(a) == HashCode(b)
  {
  }
}
