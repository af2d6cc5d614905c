/**
 * The persisted document of the score-keeping backend: a table of accounts
 * keyed by username, each holding a password hash and an ordered list of
 * student records, plus the pure list and score operations the route
 * handlers apply to one account's students.
 */
module Records {

  datatype Option<+T> = None | Some(value: T)

  /** A score value as the client sends it; no arithmetic is ever done on it. */
  type Mark = real

  /** The output of the password hash; hashing itself happens outside the model. */
  type Hash = string

  /** A score sheet: a score key that maps to None is set to `undefined`. */
  type Scores = map<string, Option<Mark>>

  datatype Student = Student(id: int, name: string, scores: Scores)

  /**
   * One account. The hash is stored under the field `password`, and an account
   * has no `username` field. `students` is None when the stored account lacks
   * the field (the handlers that use it then fail).
   */
  datatype Account = Account(password: Hash, students: Option<seq<Student>>)

  /** The whole JSON document: `{ users: { [username]: account } }`. */
  datatype Dataset = Dataset(users: map<string, Account>)

  /** The four formative marks, the midterm and the final. */
  const SCORE_KEYS: set<string> := {"diemTX1", "diemTX2", "diemTX3", "diemTX4", "diemGK", "diemCK"}

  /** A score key reads as `undefined`: either absent or explicitly unset. */
  predicate Unset(scores: Scores, key: string) {
    key !in scores || scores[key] == None
  }

  /** The record the add handler creates: the given id and name, every score key unset. */
  function NewStudent(id: int, name: string): (s: Student)
    ensures s.id == id && s.name == name
    ensures s.scores.Keys == SCORE_KEYS
    ensures forall key :: Unset(s.scores, key)
  {
    Student(id, name, map key | key in SCORE_KEYS :: None)
  }

  /** `user.students || []`: the account's list, or the empty list when the field is absent. */
  function StudentsOrEmpty(a: Account): (s: seq<Student>)
    ensures a.students.Some? ==> s == a.students.value
    ensures a.students.None? ==> s == []
  {
    match a.students
    case Some(list) => list
    case None => []
  }

  /** `students.findIndex(s => s.id === id)`: the first index holding `id`, or -1. */
  function FindIndex(students: seq<Student>, id: int): (r: int)
    ensures -1 <= r < |students|
    ensures r == -1 <==> forall i :: 0 <= i < |students| ==> students[i].id != id
    ensures 0 <= r ==> students[r].id == id && forall i :: 0 <= i < r ==> students[i].id != id
  {
    if |students| == 0 then -1
    else if students[0].id == id then 0
    else
      var r := FindIndex(students[1..], id);
      if r == -1 then -1 else r + 1
  }

  /** `students.filter(s => s.id !== id)`. */
  function WithoutId(students: seq<Student>, id: int): (r: seq<Student>)
    ensures |r| <= |students|
    ensures forall s :: s in r <==> s in students && s.id != id
  {
    if |students| == 0 then []
    else if students[0].id == id then WithoutId(students[1..], id)
    else [students[0]] + WithoutId(students[1..], id)
  }

  /** The filter distributes over concatenation, so the kept records stay in their order. */
  lemma {:induction false} WithoutIdConcat(a: seq<Student>, b: seq<Student>, id: int)
    ensures WithoutId(a + b, id) == WithoutId(a, id) + WithoutId(b, id)
  {
    if |a| == 0 {
      assert a + b == b;
    } else {
      assert (a + b)[1..] == a[1..] + b;
      WithoutIdConcat(a[1..], b, id);
    }
  }

  /** The filter keeps a single record exactly when its id differs from the target. */
  lemma WithoutIdSingleton(s: Student, id: int)
    ensures WithoutId([s], id) == if s.id == id then [] else [s]
  {
  }

  /** The filter shortens the list exactly when some record carries the id, and otherwise returns it unchanged. */
  lemma {:induction false} WithoutIdSameLength(students: seq<Student>, id: int)
    ensures |WithoutId(students, id)| == |students| <==> forall i :: 0 <= i < |students| ==> students[i].id != id
    ensures |WithoutId(students, id)| == |students| ==> WithoutId(students, id) == students
  {
    if |students| > 0 {
      WithoutIdSameLength(students[1..], id);
      if students[0].id != id {
        assert students == [students[0]] + students[1..];
        forall i | 1 <= i < |students| ensures students[i] == students[1..][i - 1] { }
      }
    }
  }

  /** Filtering twice removes nothing more: a second delete of the same id finds nothing. */
  lemma {:induction false} WithoutIdIdempotent(students: seq<Student>, id: int)
    ensures WithoutId(WithoutId(students, id), id) == WithoutId(students, id)
  {
    var r := WithoutId(students, id);
    forall i | 0 <= i < |r| ensures r[i].id != id {
      assert r[i] in r;
    }
    WithoutIdSameLength(r, id);
  }

  /** The keys of a partial score update, each carrying its new value. */
  function Overrides(update: map<string, Mark>): (o: Scores)
    ensures o.Keys == update.Keys
    ensures forall key :: key in update ==> o[key] == Some(update[key])
  {
    map key | key in update :: Some(update[key])
  }

  /**
   * `{ ...old, ...update }`: every key of the update takes its new value,
   * every other key keeps its old value (including unset), and no key is lost.
   * An absent update (`undefined` or `null`) spreads nothing.
   */
  function Merge(current: Scores, update: Option<map<string, Mark>>): (r: Scores)
    ensures update.None? ==> r == current
    ensures update.Some? ==> r.Keys == current.Keys + update.value.Keys
    ensures update.Some? ==> forall key :: key in update.value ==> r[key] == Some(update.value[key])
    ensures forall key :: key in current && (update.None? || key !in update.value) ==> key in r && r[key] == current[key]
  {
    match update
    case None => current
    case Some(u) => current + Overrides(u)
  }
}
