/**
 * The route handlers of the score-keeping backend. Every handler runs one
 * load-mutate-save cycle: it loads the whole document from the backing file
 * (creating `{ users: {} }` first when the file is missing), changes the
 * loaded copy in place, and writes the whole copy back only on success.
 */
module Server {
  import opened Records
  import opened Tokens

  /** The error answers of the handlers. */
  datatype Failure =
    | DuplicateUsername   // register: the name is taken
    | InvalidCredentials  // login: unknown name or wrong password, one answer for both
    | AccountNotFound     // the claim's key is not a user
    | StudentNotFound     // no record carries the id
    | TypeError           // the account has no `students` field, so the handler throws

  datatype Result<+T> = Ok(value: T) | Err(failure: Failure)

  /** The HTTP status each failure is answered with (an uncaught exception is a 500). */
  function FailureStatus(f: Failure): (code: int)
    ensures f == DuplicateUsername || f == InvalidCredentials <==> code == 400
    ensures f == AccountNotFound || f == StudentNotFound <==> code == 404
    ensures f == TypeError <==> code == 500
  {
    match f
    case DuplicateUsername => 400
    case InvalidCredentials => 400
    case AccountNotFound => 404
    case StudentNotFound => 404
    case TypeError => 500
  }

  /** A login answer: the signed claim and the `username` echoed in the response body. */
  datatype Session = Session(claim: Claim, username: Option<string>)

  /**
   * The login decision as written: an unknown name and a wrong password give
   * the same failure; on success the claim and the echoed name are taken from
   * the account's `username` field, which accounts do not have, so both are absent.
   */
  function LoginOutcome(users: map<string, Account>, username: string, password: string,
                        compare: (string, Hash) -> bool): (r: Result<Session>)
    ensures r.Ok? <==> username in users && compare(password, users[username].password)
    ensures r.Err? ==> r.failure == InvalidCredentials
    ensures r.Ok? ==> r.value.claim.username.None? && r.value.username.None?
  {
    if username !in users then Err(InvalidCredentials)
    else if !compare(password, users[username].password) then Err(InvalidCredentials)
    else Ok(Session(Claim(None), None))
  }

  /** A caller cannot tell an unknown name from a wrong password. */
  lemma UnknownUserLikeWrongPassword(users: map<string, Account>, unknown: string, p1: string,
                                     known: string, p2: string, compare: (string, Hash) -> bool)
    requires unknown !in users
    requires known in users && !compare(p2, users[known].password)
    ensures LoginOutcome(users, unknown, p1, compare) == LoginOutcome(users, known, p2, compare) == Err(InvalidCredentials)
  {
  }

  /** Every failed login is answered with 400, whichever check failed. */
  lemma LoginFailureStatus(users: map<string, Account>, username: string, password: string,
                           compare: (string, Hash) -> bool)
    requires LoginOutcome(users, username, password, compare).Err?
    ensures FailureStatus(LoginOutcome(users, username, password, compare).failure) == 400
  {
  }

  /**
   * A token from a successful login as written names no user: it resolves to
   * the key "undefined", so unless an account of that name exists, every
   * protected request made with it finds no account.
   */
  lemma LoginClaimMissesAccount(users: map<string, Account>, username: string, password: string,
                                compare: (string, Hash) -> bool)
    requires LoginOutcome(users, username, password, compare).Ok?
    requires "undefined" !in users
    ensures var claim := LoginOutcome(users, username, password, compare).value.claim;
      UserKey(claim) == "undefined" && UserKey(claim) !in users && username in users
  {
  }

  /** The login decision with the claim carrying the name the caller logged in with. */
  function IntendedLoginOutcome(users: map<string, Account>, username: string, password: string,
                                compare: (string, Hash) -> bool): (r: Result<Session>)
    ensures r.Ok? <==> username in users && compare(password, users[username].password)
    ensures r.Err? ==> r.failure == InvalidCredentials
    ensures r.Ok? ==> UserKey(r.value.claim) == username && r.value.username == Some(username)
  {
    if username !in users then Err(InvalidCredentials)
    else if !compare(password, users[username].password) then Err(InvalidCredentials)
    else Ok(Session(Claim(Some(username)), Some(username)))
  }

  /** The intended login differs from the written one only in the name it carries. */
  lemma IntendedLoginAgrees(users: map<string, Account>, username: string, password: string,
                            compare: (string, Hash) -> bool)
    ensures var written := LoginOutcome(users, username, password, compare);
      var intended := IntendedLoginOutcome(users, username, password, compare);
      && (written.Err? <==> intended.Err?)
      && (written.Err? ==> written == intended)
      && (intended.Ok? ==> UserKey(intended.value.claim) in users)
  {
  }

  class Server {
    /** The document the current handler loaded and is changing in place. */
    var users: map<string, Account>
    /** The backing JSON file: None while it does not exist. */
    var store: Option<Dataset>

    /** What `readDb` yields: the stored document, or the empty one when there is none. */
    function Loaded(): (d: Dataset)
      reads this
      ensures store.Some? ==> d == store.value
      ensures store.None? ==> d.users == map[]
    {
      match store
      case Some(d) => d
      case None => Dataset(map[])
    }

    constructor (file: Option<Dataset>)
      ensures store == file && users == map[]
    {
      store := file;
      users := map[];
    }

    /** `readDb`: a missing file is first written as `{ users: {} }`; then the file is loaded. */
    method ReadDb()
      modifies this
      ensures store.Some? && store == Some(old(Loaded()))
      ensures users == old(Loaded()).users
    {
      if store.None? {
        store := Some(Dataset(map[]));
      }
      users := store.value.users;
    }

    /** `writeDb`: the whole loaded document replaces the file. */
    method WriteDb()
      modifies this`store
      ensures store == Some(Dataset(users))
    {
      store := Some(Dataset(users));
    }

    /**
     * Register: a taken name fails without writing; otherwise exactly one
     * account `{ password: hashed, students: [] }` is added and every other
     * account is kept. `hashed` is the salted hash of the password.
     */
    method Register(username: string, hashed: Hash) returns (r: Result<()>)
      modifies this
      ensures store == Some(Dataset(users))
      ensures var db := old(Loaded()).users;
        if username in db then r == Err(DuplicateUsername) && users == db
        else r == Ok(()) && users == db[username := Account(hashed, Some([]))]
    {
      ReadDb();
      if username in users {
        return Err(DuplicateUsername);
      }
      users := users[username := Account(hashed, Some([]))];
      WriteDb();
      r := Ok(());
    }

    /** Login: a read followed by the login decision; nothing but the initial file is written. */
    method Login(username: string, password: string, compare: (string, Hash) -> bool)
      returns (r: Result<Session>)
      modifies this
      ensures store == Some(old(Loaded())) && users == old(Loaded()).users
      ensures r == LoginOutcome(old(Loaded()).users, username, password, compare)
    {
      ReadDb();
      r := LoginOutcome(users, username, password, compare);
    }

    /** List: the account's records in order (empty when it has none), or account-not-found. */
    method ListStudents(claim: Claim) returns (r: Result<seq<Student>>)
      modifies this
      ensures store == Some(old(Loaded())) && users == old(Loaded()).users
      ensures var db := old(Loaded()).users; var key := UserKey(claim);
        if key !in db then r == Err(AccountNotFound)
        else r == Ok(StudentsOrEmpty(db[key]))
    {
      ReadDb();
      var key := UserKey(claim);
      if key !in users {
        return Err(AccountNotFound);
      }
      r := Ok(StudentsOrEmpty(users[key]));
    }

    /**
     * Add: appends one record with id `now` and the given name, every score
     * unset, at the end of the account's list; the earlier records and all
     * other accounts are kept.
     */
    method AddStudent(claim: Claim, name: string, now: int) returns (r: Result<Student>)
      modifies this
      ensures store.Some?
      ensures var db := old(Loaded()).users; var key := UserKey(claim);
        if key !in db then r == Err(AccountNotFound) && users == db && store == Some(old(Loaded()))
        else if db[key].students.None? then r == Err(TypeError) && users == db && store == Some(old(Loaded()))
        else
          && r == Ok(NewStudent(now, name))
          && users == db[key := db[key].(students := Some(db[key].students.value + [NewStudent(now, name)]))]
          && store == Some(Dataset(users))
    {
      ReadDb();
      var key := UserKey(claim);
      if key !in users {
        return Err(AccountNotFound);
      }
      var user := users[key];
      if user.students.None? {
        return Err(TypeError);
      }
      var student := NewStudent(now, name);
      users := users[key := user.(students := Some(user.students.value + [student]))];
      WriteDb();
      r := Ok(student);
    }

    /**
     * Update: merges the partial scores over the first record carrying the
     * id; the record's id and name, the other records and the other accounts
     * are kept. No record with the id: student-not-found, nothing written.
     */
    method UpdateScores(claim: Claim, studentId: int, updated: Option<map<string, Mark>>)
      returns (r: Result<Student>)
      modifies this
      ensures store.Some?
      ensures var db := old(Loaded()).users; var key := UserKey(claim);
        if key !in db then r == Err(AccountNotFound) && users == db && store == Some(old(Loaded()))
        else if db[key].students.None? then r == Err(TypeError) && users == db && store == Some(old(Loaded()))
        else
          var list := db[key].students.value;
          var i := FindIndex(list, studentId);
          if i == -1 then r == Err(StudentNotFound) && users == db && store == Some(old(Loaded()))
          else
            var record := Student(list[i].id, list[i].name, Merge(list[i].scores, updated));
            && r == Ok(record)
            && users == db[key := db[key].(students := Some(list[i := record]))]
            && store == Some(Dataset(users))
    {
      ReadDb();
      var key := UserKey(claim);
      if key !in users {
        return Err(AccountNotFound);
      }
      var user := users[key];
      if user.students.None? {
        return Err(TypeError);
      }
      var list := user.students.value;
      var i := FindIndex(list, studentId);
      if i == -1 {
        return Err(StudentNotFound);
      }
      var record := list[i].(scores := Merge(list[i].scores, updated));
      users := users[key := user.(students := Some(list[i := record]))];
      WriteDb();
      r := Ok(record);
    }

    /**
     * Delete: drops every record carrying the id and keeps the rest in order;
     * when the list length is unchanged it answers student-not-found and
     * writes nothing.
     */
    method DeleteStudent(claim: Claim, studentId: int) returns (r: Result<()>)
      modifies this
      ensures store.Some?
      ensures var db := old(Loaded()).users; var key := UserKey(claim);
        if key !in db then r == Err(AccountNotFound) && users == db && store == Some(old(Loaded()))
        else if db[key].students.None? then r == Err(TypeError) && users == db && store == Some(old(Loaded()))
        else
          var list := db[key].students.value;
          var kept := WithoutId(list, studentId);
          if |kept| == |list| then r == Err(StudentNotFound) && users == db && store == Some(old(Loaded()))
          else
            && r == Ok(())
            && users == db[key := db[key].(students := Some(kept))]
            && store == Some(Dataset(users))
    {
      ReadDb();
      var key := UserKey(claim);
      if key !in users {
        return Err(AccountNotFound);
      }
      var user := users[key];
      if user.students.None? {
        return Err(TypeError);
      }
      var initialLength := |user.students.value|;
      var kept := WithoutId(user.students.value, studentId);
      users := users[key := user.(students := Some(kept))];
      if |kept| == initialLength {
        WithoutIdSameLength(user.students.value, studentId);
        return Err(StudentNotFound);
      }
      WriteDb();
      r := Ok(());
    }
  }

  /** Registering one name twice: the second call fails and leaves the first account as it was. */
  method RegisterTwice(s: Server, username: string, h1: Hash, h2: Hash) returns (r1: Result<()>, r2: Result<()>)
    modifies s
    ensures r2 == Err(DuplicateUsername)
    ensures r1.Ok? ==> s.store == Some(Dataset(old(s.Loaded()).users[username := Account(h1, Some([]))]))
  {
    r1 := s.Register(username, h1);
    r2 := s.Register(username, h2);
  }

  /** Adding a record and then listing shows the earlier records followed by the new one, all its scores unset. */
  method AddThenList(s: Server, claim: Claim, name: string, now: int)
    returns (added: Result<Student>, listed: Result<seq<Student>>)
    modifies s
    ensures added.Ok? ==> listed.Ok? && |listed.value| >= 1 && UserKey(claim) in old(s.Loaded()).users
    ensures added.Ok? ==> listed.value == StudentsOrEmpty(old(s.Loaded()).users[UserKey(claim)]) + [added.value]
    ensures added.Ok? ==> var last := listed.value[|listed.value| - 1];
      last.name == name && forall key :: key in SCORE_KEYS ==> Unset(last.scores, key)
  {
    added := s.AddStudent(claim, name, now);
    listed := s.ListStudents(claim);
  }

  /** Deleting one id twice: the second delete always fails, with student-not-found after a successful first one. */
  method DeleteTwice(s: Server, claim: Claim, studentId: int) returns (r1: Result<()>, r2: Result<()>)
    modifies s
    ensures r2.Err?
    ensures r1.Ok? ==> r2 == Err(StudentNotFound)
  {
    r1 := s.DeleteStudent(claim, studentId);
    if r1.Ok? {
      WithoutIdIdempotent(old(s.Loaded()).users[UserKey(claim)].students.value, studentId);
    }
    r2 := s.DeleteStudent(claim, studentId);
  }

  /**
   * Registering, logging in with the right password and listing, as written:
   * the login succeeds, yet the list request made with its claim finds no
   * account (when no user is called "undefined"), with any earlier document.
   */
  method LoginThenList(s: Server, username: string, password: string, hashed: Hash,
                       compare: (string, Hash) -> bool)
    returns (session: Result<Session>, listed: Result<seq<Student>>)
    requires compare(password, hashed)
    requires username != "undefined"
    requires username !in s.Loaded().users && "undefined" !in s.Loaded().users
    modifies s
    ensures session.Ok?
    ensures listed == Err(AccountNotFound)
  {
    var registered := s.Register(username, hashed);
    session := s.Login(username, password, compare);
    listed := s.ListStudents(session.value.claim);
  }
}
