/** The two authentication routes: `POST /register` and `POST /login`. */
module Auth {
  import opened Common
  import opened Text
  import opened Crypto
  import opened Model
  import opened Db
  import opened Http
  import opened Validate

  datatype LoginBody = LoginBody(email: string, password: string)

  const InvalidEmailFormat := "Invalid email format"
  const AlreadyExists := "User with this email or username already exists"
  const InvalidCredentials := "Invalid credentials"

  /** One `[^\s@]+` run: non-empty, no whitespace, no `@`. */
  predicate EmailPart(t: string) {
    |t| >= 1 && forall k :: 0 <= k < |t| ==> !IsJsSpace(t[k]) && t[k] != '@'
  }

  /** The structure `/^[^\s@]+@[^\s@]+\.[^\s@]+$/` matches: three runs
      separated by an `@` at `i` and a `.` at `j`. */
  ghost predicate MatchesEmailRegex(s: string) {
    exists i, j :: 0 < i < j < |s| - 1 && s[i] == '@' && s[j] == '.'
      && EmailPart(s[..i]) && EmailPart(s[i + 1..j]) && EmailPart(s[j + 1..])
  }

  /** The check `emailRegex.test(email)` performs, stated directly: no
      whitespace, exactly one `@` and not in first place, and after it a
      `.` with at least one character on each side. */
  predicate EmailFormatOk(s: string) {
    && (forall k :: 0 <= k < |s| ==> !IsJsSpace(s[k]))
    && exists i :: 0 < i < |s| && s[i] == '@'
         && (forall k :: 0 <= k < |s| && k != i ==> s[k] != '@')
         && (exists j :: i + 1 < j < |s| - 1 && s[j] == '.')
  }

  /** Every string the direct check accepts matches the regular expression. */
  lemma EmailFormatSound(s: string)
    requires EmailFormatOk(s)
    ensures MatchesEmailRegex(s)
  {
    var i :| 0 < i < |s| && s[i] == '@'
       && (forall k :: 0 <= k < |s| && k != i ==> s[k] != '@')
       && (exists j :: i + 1 < j < |s| - 1 && s[j] == '.');
    var j :| i + 1 < j < |s| - 1 && s[j] == '.';
    var pre, mid, post := s[..i], s[i + 1..j], s[j + 1..];
    forall k | 0 <= k < |pre| ensures !IsJsSpace(pre[k]) && pre[k] != '@' { assert pre[k] == s[k]; }
    forall k | 0 <= k < |mid| ensures !IsJsSpace(mid[k]) && mid[k] != '@' { assert mid[k] == s[i + 1 + k]; }
    forall k | 0 <= k < |post| ensures !IsJsSpace(post[k]) && post[k] != '@' { assert post[k] == s[j + 1 + k]; }
    assert EmailPart(pre) && EmailPart(mid) && EmailPart(post);
  }

  /** Every string the regular expression matches passes the direct check. */
  lemma EmailFormatComplete(s: string)
    requires MatchesEmailRegex(s)
    ensures EmailFormatOk(s)
  {
    var i, j :| 0 < i < j < |s| - 1 && s[i] == '@' && s[j] == '.'
      && EmailPart(s[..i]) && EmailPart(s[i + 1..j]) && EmailPart(s[j + 1..]);
    var pre, mid, post := s[..i], s[i + 1..j], s[j + 1..];
    forall k | 0 <= k < |s| && k != i ensures s[k] != '@' && !IsJsSpace(s[k]) {
      if k < i { assert s[k] == pre[k]; }
      else if k < j { assert s[k] == mid[k - i - 1]; }
      else if k > j { assert s[k] == post[k - j - 1]; }
    }
    assert !IsJsSpace(s[i]);
    assert i + 1 < j < |s| - 1 && s[j] == '.';
  }

  /** The direct check is exactly the regular expression, in both directions. */
  lemma EmailFormatMatchesRegex(s: string)
    ensures EmailFormatOk(s) <==> MatchesEmailRegex(s)
  {
    if EmailFormatOk(s) { EmailFormatSound(s); }
    if MatchesEmailRegex(s) { EmailFormatComplete(s); }
  }

  /** `User.findOne({ $or: [{ email }, { username }] })` finds something. */
  predicate Taken(users: map<Id, User>, username: string, email: string): (taken: bool)
    ensures taken <==>
      FindUserByEmail(users, email).Some? || exists id :: id in users && users[id].username == username
  {
    exists id :: id in users && (users[id].email == email || users[id].username == username)
  }

  /** `POST /api/auth/register`: schema, then the e-mail regex, then the
      uniqueness lookup, then the insert of a user whose password went
      through the pre-save hook. `newId` is the ObjectId the insert gets,
      `salt` bcrypt's random salt and `now` the clock; an insert that
      collides on `_id` is the catch-all 500. */
  function Register(o: Oracles, s: Store, b: RegisterBody, newId: Id, salt: nat, now: nat): (r: Step)
    ensures UserSchemaError(b, o.joiEmail).Some? ==>
      r == Step(Reply(400, Message(UserSchemaError(b, o.joiEmail).value)), s)
    ensures UserSchemaAccepts(b, o.joiEmail) && !EmailFormatOk(b.email.value) ==>
      r == Step(Reply(400, Message(InvalidEmailFormat)), s)
    ensures UserSchemaAccepts(b, o.joiEmail) && EmailFormatOk(b.email.value)
            && Taken(s.users, b.username.value, b.email.value) ==>
      r == Step(Reply(400, Message(AlreadyExists)), s)
    ensures HasStatus(r, 201) <==>
      (UserSchemaAccepts(b, o.joiEmail) && EmailFormatOk(b.email.value)
       && !Taken(s.users, b.username.value, b.email.value) && newId !in s.users)
    ensures UserSchemaAccepts(b, o.joiEmail) && EmailFormatOk(b.email.value)
            && !Taken(s.users, b.username.value, b.email.value) && newId in s.users ==>
      r == Step(Reply(500, Message(ServerError)), s)
    ensures !HasStatus(r, 201) ==> r.store == s
    ensures HasStatus(r, 201) ==>
      && r.store.tutorials == s.tutorials
      && r.store.users.Keys == s.users.Keys + {newId}
      && |r.store.users| == |s.users| + 1
      && (forall id :: id in s.users ==> r.store.users[id] == s.users[id])
      && r.store.users[newId].username == b.username.value
      && r.store.users[newId].email == b.email.value
      && r.store.users[newId].password == o.hash(b.password.value, salt)
      && r.reply.body == Session(o.sign(newId), UserSummary(newId, b.username.value, b.email.value))
  {
    match UserSchemaError(b, o.joiEmail)
    case Some(msg) => Step(Reply(400, Message(msg)), s)
    case None =>
      var username, email, password := b.username.value, b.email.value, b.password.value;
      if !EmailFormatOk(email) then Step(Reply(400, Message(InvalidEmailFormat)), s)
      else if Taken(s.users, username, email) then Step(Reply(400, Message(AlreadyExists)), s)
      else if newId in s.users then Step(Reply(500, Message(ServerError)), s)
      else
        var user := User(username, email, PreSave(o, password, true, salt), now);
        Step(Reply(201, Session(o.sign(newId), UserSummary(newId, username, email))),
             s.(users := s.users[newId := user]))
  }

  /** `POST /api/auth/login`: look the user up by e-mail and compare the
      password; both failures give the same 401. The store is never touched. */
  function Login(o: Oracles, s: Store, b: LoginBody): (r: Step)
    ensures r.store == s
    ensures r.reply == Reply(401, Message(InvalidCredentials)) || HasStatus(r, 200)
    ensures UniqueCredentials(s.users) ==>
      (HasStatus(r, 200) <==>
        exists id :: id in s.users && s.users[id].email == b.email && ComparePassword(o, s.users[id], b.password))
    ensures HasStatus(r, 200) ==>
      exists id :: id in s.users && s.users[id].email == b.email
        && r.reply.body == Session(o.sign(id), UserSummary(id, s.users[id].username, b.email))
  {
    match FindUserByEmail(s.users, b.email)
    case None => Step(Reply(401, Message(InvalidCredentials)), s)
    case Some(id) =>
      if !ComparePassword(o, s.users[id], b.password) then Step(Reply(401, Message(InvalidCredentials)), s)
      else Step(Reply(200, Session(o.sign(id), UserSummary(id, s.users[id].username, b.email))), s)
  }

  /** An unknown e-mail and a wrong password are answered identically, so a
      reply does not reveal whether the address is registered. */
  lemma LoginFailuresIndistinguishable(o: Oracles, s: Store, unknown: LoginBody, wrong: LoginBody)
    requires forall id :: id in s.users ==> s.users[id].email != unknown.email
    requires forall id :: id in s.users && s.users[id].email == wrong.email ==>
               !ComparePassword(o, s.users[id], wrong.password)
    ensures Login(o, s, unknown) == Login(o, s, wrong)
  {
  }

  /** Registration keeps usernames and e-mail addresses unique. */
  lemma RegisterKeepsCredentialsUnique(o: Oracles, s: Store, b: RegisterBody, newId: Id, salt: nat, now: nat)
    requires UniqueCredentials(s.users)
    ensures UniqueCredentials(Register(o, s, b, newId, salt, now).store.users)
  {
    var r := Register(o, s, b, newId, salt, now);
    if HasStatus(r, 201) {
      var users := r.store.users;
      var added := users[newId];
      forall a, c | a in users && c in users && a != c
        ensures users[a].username != users[c].username && users[a].email != users[c].email
      {
        if a == newId {
          assert c in s.users && users[c] == s.users[c];
          assert !Taken(s.users, added.username, added.email);
        } else if c == newId {
          assert a in s.users && users[a] == s.users[a];
          assert !Taken(s.users, added.username, added.email);
        } else {
          assert a in s.users && c in s.users;
        }
      }
    }
  }

  /** A successful registration raises the user count `getStats` reports
      by one and leaves the tutorial count alone; a failed one changes neither. */
  lemma RegisterRaisesUserCount(o: Oracles, s: Store, b: RegisterBody, newId: Id, salt: nat, now: nat)
    ensures var r := Register(o, s, b, newId, salt, now);
      && GetUserStats(r.store).totalUsers == GetUserStats(s).totalUsers + (if HasStatus(r, 201) then 1 else 0)
      && GetUserStats(r.store).totalTutorials == GetUserStats(s).totalTutorials
  {
    var r := Register(o, s, b, newId, salt, now);
    if HasStatus(r, 201) {
      assert newId !in s.users.Keys;
      assert |(s.users.Keys + {newId})| == |s.users.Keys| + 1;
    }
  }

  /** Once a registration succeeded, any later registration that reuses its
      e-mail or its username is refused as a duplicate and changes nothing,
      whatever its other fields are. */
  lemma SecondRegistrationConflicts(o: Oracles, s: Store, b: RegisterBody, newId: Id, salt: nat, now: nat,
                                    b2: RegisterBody, newId2: Id, salt2: nat, now2: nat)
    requires HasStatus(Register(o, s, b, newId, salt, now), 201)
    requires UserSchemaAccepts(b2, o.joiEmail) && EmailFormatOk(b2.email.value)
    requires b2.email == b.email || b2.username == b.username
    ensures var s1 := Register(o, s, b, newId, salt, now).store;
      Register(o, s1, b2, newId2, salt2, now2) == Step(Reply(400, Message(AlreadyExists)), s1)
  {
    var s1 := Register(o, s, b, newId, salt, now).store;
    assert newId in s1.users;
  }

  /** A user who just registered can log in with the same e-mail and
      password, and receives a token for the new id. */
  lemma RegisterThenLogin(o: Oracles, s: Store, b: RegisterBody, newId: Id, salt: nat, now: nat)
    requires Lawful(o)
    requires UniqueCredentials(s.users)
    requires HasStatus(Register(o, s, b, newId, salt, now), 201)
    ensures var s1 := Register(o, s, b, newId, salt, now).store;
      Login(o, s1, LoginBody(b.email.value, b.password.value)).reply
        == Reply(200, Session(o.sign(newId), UserSummary(newId, b.username.value, b.email.value)))
  {
    var s1 := Register(o, s, b, newId, salt, now).store;
    RegisterKeepsCredentialsUnique(o, s, b, newId, salt, now);
    var found := FindUserByEmail(s1.users, b.email.value);
    assert s1.users[newId].email == b.email.value;
    assert found == Some(newId);
    SavedPasswordCompares(o, s1.users[newId], b.password.value, salt);
  }
}
