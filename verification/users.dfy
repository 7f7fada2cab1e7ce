/** The profile router, mounted under `/api/users` behind the `auth`
    middleware; `requester` is the id that middleware attaches. */
module Users {
  import opened Common
  import opened Crypto
  import opened Model
  import opened Db
  import opened Http
  import opened Validate

  /** The keys of a profile update the user document has paths for. */
  datatype ProfileBody = ProfileBody(username: Option<string>, email: Option<string>, password: Option<string>)

  /** `GET /api/users/profile`: the requester's document without its
      password, or `null` when no such user exists. */
  function GetProfile(s: Store, requester: Id): (r: Step)
    ensures r.store == s && HasStatus(r, 200) && r.reply.body.Profile?
    ensures r.reply.body.profile.Some? <==> requester in s.users
    ensures requester in s.users ==>
      r.reply.body.profile.value == UserView(requester, s.users[requester].username,
                                             s.users[requester].email, s.users[requester].createdAt)
  {
    Step(Reply(200, Profile(ViewUser(s.users, requester))), s)
  }

  /** Another user already holds the username or e-mail `u` would get. */
  predicate ClashesWithOther(users: map<Id, User>, requester: Id, u: User) {
    exists id :: id in users && id != requester && (users[id].username == u.username || users[id].email == u.email)
  }

  /** `PUT /api/users/profile`: `delete updates.password`, then
      `findByIdAndUpdate` with the remaining keys (no validators). A
      duplicate on a unique index rejects the promise, which no `catch`
      handles, so no reply is sent. */
  function UpdateProfile(s: Store, requester: Id, b: ProfileBody): (r: Step)
    ensures r.store.tutorials == s.tutorials
    ensures r.store.users.Keys == s.users.Keys
    ensures forall id :: id in s.users && id != requester ==> r.store.users[id] == s.users[id]
    ensures requester in s.users ==>
      && r.store.users[requester].password == s.users[requester].password
      && r.store.users[requester].createdAt == s.users[requester].createdAt
    ensures requester !in s.users ==> r == Step(Reply(200, Profile(None)), s)
    ensures r.reply.NoReply? ==> r.store == s
    ensures requester in s.users ==>
      (r.reply.NoReply? <==>
        exists id :: id in s.users && id != requester
          && (s.users[id].username == b.username.GetOr(s.users[requester].username)
              || s.users[id].email == b.email.GetOr(s.users[requester].email)))
    ensures requester in s.users && r.reply.Reply? ==>
      && r.store.users[requester].username == b.username.GetOr(s.users[requester].username)
      && r.store.users[requester].email == b.email.GetOr(s.users[requester].email)
      && r.reply == Reply(200, Profile(ViewUser(r.store.users, requester)))
  {
    var updates := b.(password := None);
    if requester !in s.users then Step(Reply(200, Profile(None)), s)
    else
      var prev := s.users[requester];
      var u := prev.(username := updates.username.GetOr(prev.username), email := updates.email.GetOr(prev.email));
      if ClashesWithOther(s.users, requester, u) then Step(NoReply, s)
      else
        var users := s.users[requester := u];
        Step(Reply(200, Profile(ViewUser(users, requester))), s.(users := users))
  }

  /** Profile updates keep usernames and e-mail addresses unique. */
  lemma UpdateProfileKeepsCredentialsUnique(s: Store, requester: Id, b: ProfileBody)
    requires UniqueCredentials(s.users)
    ensures UniqueCredentials(UpdateProfile(s, requester, b).store.users)
  {
  }

  /** Neither profile route's reply depends on the stored password hash:
      two stores that differ only in it produce the same replies. */
  lemma ProfileRepliesIgnorePassword(s: Store, requester: Id, h1: string, h2: string, b: ProfileBody)
    requires requester in s.users
    ensures var s1 := s.(users := s.users[requester := s.users[requester].(password := h1)]);
            var s2 := s.(users := s.users[requester := s.users[requester].(password := h2)]);
            GetProfile(s1, requester).reply == GetProfile(s2, requester).reply
            && UpdateProfile(s1, requester, b).reply == UpdateProfile(s2, requester, b).reply
  {
    var s1 := s.(users := s.users[requester := s.users[requester].(password := h1)]);
    var s2 := s.(users := s.users[requester := s.users[requester].(password := h2)]);
    var old1, old2 := s1.users[requester], s2.users[requester];
    var u1 := old1.(username := b.username.GetOr(old1.username), email := b.email.GetOr(old1.email));
    var u2 := old2.(username := b.username.GetOr(old2.username), email := b.email.GetOr(old2.email));
    assert ClashesWithOther(s1.users, requester, u1) <==> ClashesWithOther(s2.users, requester, u2) by {
      forall id | id in s.users && id != requester ensures s1.users[id] == s2.users[id] { }
    }
  }

  /** The update path runs no schema validator: a username the
      registration rules refuse (one character long) is stored as given. */
  lemma UpdateProfileSkipsUsernameRules(s: Store, requester: Id)
    requires requester in s.users
    requires forall id :: id in s.users && id != requester ==>
      s.users[id].username != "x" && s.users[id].email != s.users[requester].email
    ensures var r := UpdateProfile(s, requester, ProfileBody(Some("x"), None, None));
      r.reply.Reply? && r.store.users[requester].username == "x" && !ValidUsername("x")
  {
    var prev := s.users[requester];
    var u := prev.(username := "x");
    assert !ClashesWithOther(s.users, requester, u);
  }
}
