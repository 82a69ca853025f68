/**
 * The local user store of AuthManager: a map from e-mail address to user
 * record with register, login, package update and usage counting. The JSON
 * file the source loads and saves around each operation is the map itself,
 * the password hash is a parameter of the store, and the clock reading is an
 * argument of each operation that stamps a time.
 */
module Auth {
  import opened Wrappers
  import StudentVerification

  /** The usage sub-record of a user. */
  datatype Usage = Usage(analysesCount: nat, monthlyAnalyses: nat, lastAnalysis: Option<string>)

  /** One entry of the users map. */
  datatype User = User(
    email: string,
    passwordHash: string,
    name: string,
    package: string,
    isStudent: bool,
    university: string,
    studentVerified: bool,
    createdAt: string,
    lastLogin: Option<string>,
    usage: Usage)

  /** The (success, message, user_data) triple; an empty user_data dict is None. */
  datatype AuthReply = AuthReply(success: bool, message: string, user: Option<User>)

  /** The users map after an operation, with the operation's reply. */
  datatype Step = Step(users: map<string, User>, reply: AuthReply)

  const MinPasswordLength := 6
  const DuplicateMessage := "❌ Bu e-mail zaten kayıtlı!"
  const ShortPasswordMessage := "❌ Şifre en az 6 karakter olmalı!"
  const RegisteredMessage := "✅ Kayıt başarılı! Şimdi giriş yapabilirsiniz."
  const BadCredentialsMessage := "❌ E-mail veya şifre hatalı!"
  const LoggedInMessage := "✅ Giriş başarılı!"

  function StudentWelcome(university: string): string
  {
    "✅ Kayıt başarılı! 🎓 " + university + " öğrencisi olarak %45-48 indirim hakkı kazandınız!"
  }

  /** Two passwords never share a hash. */
  ghost predicate Injective(hash: string -> string)
  {
    forall a, b :: hash(a) == hash(b) ==> a == b
  }

  /** The record _register_local creates: package free, no login yet, zero counters. */
  function NewUser(hash: string -> string, email: string, password: string, name: string, now: string): User
  {
    var check := StudentVerification.IsStudentEmail(email);
    User(email, hash(password), name, "free", check.isStudent,
         if check.isStudent then check.university else "", check.isStudent,
         now, None, Usage(0, 0, None))
  }

  /** _register_local: a known address, then a short password, are refused; otherwise the record is added. */
  function Register(users: map<string, User>, hash: string -> string, email: string, password: string, name: string, now: string): Step
  {
    if email in users then Step(users, AuthReply(false, DuplicateMessage, None))
    else if |password| < MinPasswordLength then Step(users, AuthReply(false, ShortPasswordMessage, None))
    else
      var user := NewUser(hash, email, password, name, now);
      var message := if user.isStudent then StudentWelcome(user.university) else RegisteredMessage;
      Step(users[email := user], AuthReply(true, message, Some(user)))
  }

  /** _login_local: the stored hash must equal the hash of the password; success stamps last_login. */
  function Login(users: map<string, User>, hash: string -> string, email: string, password: string, now: string): Step
  {
    if email !in users || users[email].passwordHash != hash(password) then
      Step(users, AuthReply(false, BadCredentialsMessage, None))
    else
      var user := users[email].(lastLogin := Some(now));
      Step(users[email := user], AuthReply(true, LoggedInMessage, Some(user)))
  }

  /** update_user_package (local branch). */
  function UpdatePackage(users: map<string, User>, email: string, package: string): (map<string, User>, bool)
  {
    if email in users then (users[email := users[email].(package := package)], true)
    else (users, false)
  }

  /** increment_analysis_count (local branch). */
  function IncrementAnalysisCount(users: map<string, User>, email: string, now: string): map<string, User>
  {
    if email in users then
      var u := users[email].usage;
      users[email := users[email].(usage := Usage(u.analysesCount + 1, u.monthlyAnalyses + 1, Some(now)))]
    else users
  }

  /**
   * The store's records are keyed by their own address, a student flag and
   * verified flag agree, and a university is named exactly for students.
   */
  predicate Consistent(users: map<string, User>)
  {
    forall e | e in users ::
      && users[e].email == e
      && users[e].studentVerified == users[e].isStudent
      && (users[e].isStudent <==> users[e].university != "")
  }

  class AuthManager {
    /** _hash_password */
    const hash: string -> string
    /** The contents of the users file. */
    var users: map<string, User>

    /** The store starts from what the users file holds. */
    constructor (hashFunction: string -> string, stored: map<string, User>)
      ensures hash == hashFunction && users == stored
    {
      hash := hashFunction;
      users := stored;
    }

    /** _register_local */
    method RegisterUser(email: string, password: string, name: string, now: string) returns (reply: AuthReply)
      modifies this
      ensures Step(users, reply) == Register(old(users), hash, email, password, name, now)
    {
      if email in users {
        return AuthReply(false, DuplicateMessage, None);
      }
      if |password| < MinPasswordLength {
        return AuthReply(false, ShortPasswordMessage, None);
      }
      var check := StudentVerification.IsStudentEmail(email);
      var user := User(email, hash(password), name, "free", check.isStudent,
                       if check.isStudent then check.university else "", check.isStudent,
                       now, None, Usage(0, 0, None));
      users := users[email := user];
      var message := RegisteredMessage;
      if check.isStudent {
        message := StudentWelcome(check.university);
      }
      reply := AuthReply(true, message, Some(user));
    }

    /** _login_local */
    method LoginUser(email: string, password: string, now: string) returns (reply: AuthReply)
      modifies this
      ensures Step(users, reply) == Login(old(users), hash, email, password, now)
    {
      if email !in users {
        return AuthReply(false, BadCredentialsMessage, None);
      }
      var user := users[email];
      if user.passwordHash != hash(password) {
        return AuthReply(false, BadCredentialsMessage, None);
      }
      user := user.(lastLogin := Some(now));
      users := users[email := user];
      reply := AuthReply(true, LoggedInMessage, Some(user));
    }

    /** update_user_package, local branch. */
    method UpdateUserPackage(email: string, package: string) returns (updated: bool)
      modifies this
      ensures (users, updated) == UpdatePackage(old(users), email, package)
    {
      updated := false;
      if email in users {
        users := users[email := users[email].(package := package)];
        updated := true;
      }
    }

    /** increment_analysis_count, local branch. */
    method IncrementAnalysis(email: string, now: string)
      modifies this
      ensures users == IncrementAnalysisCount(old(users), email, now)
    {
      if email in users {
        var user := users[email];
        var usage := user.usage;
        usage := usage.(analysesCount := usage.analysesCount + 1);
        usage := usage.(monthlyAnalyses := usage.monthlyAnalyses + 1);
        usage := usage.(lastAnalysis := Some(now));
        users := users[email := user.(usage := usage)];
      }
    }
  }

  /** A known address is refused before the password is looked at, and nothing changes. */
  lemma RegisterDuplicate(users: map<string, User>, hash: string -> string, email: string, password: string, name: string, now: string)
    requires email in users
    ensures Register(users, hash, email, password, name, now) == Step(users, AuthReply(false, DuplicateMessage, None))
  {
  }

  /** A new address with a password under six characters is refused, and nothing changes. */
  lemma RegisterShortPassword(users: map<string, User>, hash: string -> string, email: string, password: string, name: string, now: string)
    requires email !in users && |password| < 6
    ensures Register(users, hash, email, password, name, now) == Step(users, AuthReply(false, ShortPasswordMessage, None))
  {
  }

  /**
   * Registration succeeds exactly for a new address with a password of at
   * least six characters, and then adds exactly one record, keyed by the
   * address: package free, the hash of the password, no login, zero counters,
   * the other records untouched.
   */
  lemma RegisterSuccess(users: map<string, User>, hash: string -> string, email: string, password: string, name: string, now: string)
    ensures var s := Register(users, hash, email, password, name, now);
      s.reply.success <==> email !in users && |password| >= 6
    ensures var s := Register(users, hash, email, password, name, now);
      s.reply.success ==>
        && s.users.Keys == users.Keys + {email}
        && (forall e | e in users :: s.users[e] == users[e])
        && s.reply.user == Some(s.users[email])
        && var u := s.users[email];
           && u.email == email && u.name == name && u.package == "free"
           && u.passwordHash == hash(password) && u.createdAt == now
           && u.lastLogin == None && u.usage == Usage(0, 0, None)
    ensures var s := Register(users, hash, email, password, name, now);
      !s.reply.success ==> s.users == users && s.reply.user == None
  {
  }

  /**
   * A new record's student and verified flags are both the verdict of
   * is_student_email on the address, its university is that verdict's
   * university, and it is empty exactly when the address is not a student's.
   */
  lemma RegisterStudentFields(users: map<string, User>, hash: string -> string, email: string, password: string, name: string, now: string)
    requires email !in users && |password| >= 6
    ensures var u := Register(users, hash, email, password, name, now).users[email];
      && u.isStudent == StudentVerification.IsStudentEmail(email).isStudent
      && u.studentVerified == u.isStudent
      && u.university == StudentVerification.IsStudentEmail(email).university
      && (u.university == "" <==> !u.isStudent)
  {
    StudentVerification.StudentIffUniversity(email);
  }

  /** An unknown address and a wrong password get the same refusal, and nothing changes. */
  lemma LoginFailure(users: map<string, User>, hash: string -> string, email: string, password: string, now: string)
    ensures var s := Login(users, hash, email, password, now);
      !s.reply.success <==> email !in users || users[email].passwordHash != hash(password)
    ensures var s := Login(users, hash, email, password, now);
      !s.reply.success ==> s == Step(users, AuthReply(false, BadCredentialsMessage, None))
  {
  }

  /** A successful login changes only that user's last_login and returns the updated record. */
  lemma LoginSuccess(users: map<string, User>, hash: string -> string, email: string, password: string, now: string)
    requires email in users && users[email].passwordHash == hash(password)
    ensures var s := Login(users, hash, email, password, now);
      && s.reply.success
      && s.users.Keys == users.Keys
      && s.users[email] == users[email].(lastLogin := Some(now))
      && (forall e | e in users && e != email :: s.users[e] == users[e])
      && s.reply.user == Some(s.users[email])
  {
  }

  /**
   * Round trip: after a successful registration, logging in with the same
   * password succeeds, and with an injective hash any other password fails.
   */
  lemma RegisterThenLogin(users: map<string, User>, hash: string -> string, email: string, password: string, other: string, name: string, now: string, later: string)
    requires email !in users && |password| >= 6
    ensures var s := Register(users, hash, email, password, name, now);
      Login(s.users, hash, email, password, later).reply.success
    ensures var s := Register(users, hash, email, password, name, now);
      Injective(hash) && other != password ==> !Login(s.users, hash, email, other, later).reply.success
  {
  }

  /** update_user_package reports success exactly for a known address and changes only its package. */
  lemma UpdatePackageSpec(users: map<string, User>, email: string, package: string)
    ensures var (after, ok) := UpdatePackage(users, email, package);
      && (ok <==> email in users)
      && after.Keys == users.Keys
      && (forall e | e in users && e != email :: after[e] == users[e])
      && (ok ==> after[email] == users[email].(package := package) && after[email].package == package)
      && (!ok ==> after == users)
  {
  }

  /** Both counters of a known user rise by exactly one; an unknown address changes nothing. */
  lemma IncrementSpec(users: map<string, User>, email: string, now: string)
    ensures var after := IncrementAnalysisCount(users, email, now);
      && after.Keys == users.Keys
      && (forall e | e in users && e != email :: after[e] == users[e])
      && (email in users ==>
            && after[email].usage.analysesCount == users[email].usage.analysesCount + 1
            && after[email].usage.monthlyAnalyses == users[email].usage.monthlyAnalyses + 1
            && after[email].usage.lastAnalysis == Some(now)
            && after[email] == users[email].(usage := after[email].usage))
      && (email !in users ==> after == users)
  {
  }

  /** Registration keeps the store consistent. */
  lemma RegisterConsistent(users: map<string, User>, hash: string -> string, email: string, password: string, name: string, now: string)
    requires Consistent(users)
    ensures Consistent(Register(users, hash, email, password, name, now).users)
  {
    if email !in users && |password| >= 6 {
      StudentVerification.StudentIffUniversity(email);
    }
  }

  /** Login, package update and usage counting keep the store consistent. */
  lemma UpdatesConsistent(users: map<string, User>, hash: string -> string, email: string, password: string, package: string, now: string)
    requires Consistent(users)
    ensures Consistent(Login(users, hash, email, password, now).users)
    ensures Consistent(UpdatePackage(users, email, package).0)
    ensures Consistent(IncrementAnalysisCount(users, email, now))
  {
  }
}
