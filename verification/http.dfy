/** What a handler sends back, and the JSON shapes it sends. Every handler
    is a pure step from a store and a request to a reply and a new store. */
module Http {
  import opened Common
  import opened Crypto
  import opened Model
  import opened Db

  /** `{ id, username, email }`, the user part of a login or registration reply. */
  datatype UserSummary = UserSummary(id: Id, username: string, email: string)

  /** A user document after `.select('-password')`: every field but the password. */
  datatype UserView = UserView(id: Id, username: string, email: string, createdAt: nat)

  /** The `author` field of a tutorial in a reply: the raw id, or, after
      `.populate('author', 'username')`, `{ _id, username }` or `null` when
      the user no longer resolves. */
  datatype AuthorField = AuthorId(id: Id) | Populated(author: Option<UserSummaryRef>)
  datatype UserSummaryRef = UserSummaryRef(id: Id, username: string)

  /** A tutorial document as sent: its id, its stored fields and its author field. */
  datatype TutorialView = TutorialView(id: Id, doc: Tutorial, author: AuthorField)

  datatype Body =
    | Message(text: string)
    | Session(token: string, user: UserSummary)
    | Profile(profile: Option<UserView>)
    | One(tutorial: TutorialView)
    | Many(list: seq<TutorialView>)
    | Totals(tutorials: nat, authors: nat, views: int)

  /** `NoReply` is a handler whose promise rejected with no catch: Express 4
      never answers the request. */
  datatype Reply = Reply(status: nat, body: Body) | NoReply

  datatype Step = Step(reply: Reply, store: Store)

  /** The step answered with this status code. */
  predicate HasStatus(r: Step, code: nat) {
    r.reply.Reply? && r.reply.status == code
  }

  const ServerError := "Server error"
  const NotFound := "Not found"

  /** `.select('-password')` applied to the user with that id, `null` if none. */
  function ViewUser(users: map<Id, User>, id: Id): (r: Option<UserView>)
    ensures r.Some? <==> id in users
    ensures r.Some? ==> r.value.id == id && r.value.username == users[id].username
                        && r.value.email == users[id].email && r.value.createdAt == users[id].createdAt
  {
    if id in users then Some(UserView(id, users[id].username, users[id].email, users[id].createdAt)) else None
  }

  /** `.populate('author', 'username')`: join the author reference against the users. */
  function Populate(users: map<Id, User>, id: Id, t: Tutorial): (v: TutorialView)
    ensures v.id == id && v.doc == t
    ensures v.author.Populated? && (v.author.author.Some? <==> t.author in users)
    ensures t.author in users ==> v.author.author.value == UserSummaryRef(t.author, users[t.author].username)
  {
    var a := if t.author in users then Some(UserSummaryRef(t.author, users[t.author].username)) else None;
    TutorialView(id, t, Populated(a))
  }

  /** The listed ids, each populated. */
  function PopulateAll(users: map<Id, User>, m: map<Id, Tutorial>, ids: seq<Id>): (r: seq<TutorialView>)
    requires forall i :: 0 <= i < |ids| ==> ids[i] in m
    ensures |r| == |ids|
    ensures forall i :: 0 <= i < |r| ==> r[i] == Populate(users, ids[i], m[ids[i]])
  {
    if |ids| == 0 then [] else [Populate(users, ids[0], m[ids[0]])] + PopulateAll(users, m, ids[1..])
  }

  /** `l` is the selection `m`, each document once, newest first. */
  ghost predicate ListsNewestFirst(l: seq<TutorialView>, m: map<Id, Tutorial>) {
    && (forall i :: 0 <= i < |l| ==> l[i].id in m && l[i].doc == m[l[i].id])
    && (forall id :: id in m ==> exists i :: 0 <= i < |l| && l[i].id == id)
    && (forall i, j :: 0 <= i < j < |l| ==> l[i].id != l[j].id)
    && (forall i, j :: 0 <= i < j < |l| ==> l[i].doc.createdAt >= l[j].doc.createdAt)
  }

  /** Populating a newest-first enumeration of `m` lists `m` newest first. */
  lemma PopulatedListing(users: map<Id, User>, m: map<Id, Tutorial>, ids: seq<Id>, l: seq<TutorialView>)
    requires Enumerates(m, ids) && NewestFirstOrder(m, ids)
    requires |l| == |ids| && forall i :: 0 <= i < |l| ==> l[i] == Populate(users, ids[i], m[ids[i]])
    ensures ListsNewestFirst(l, m)
    ensures forall i :: 0 <= i < |l| ==> l[i] == Populate(users, l[i].id, m[l[i].id])
  {
    forall i | 0 <= i < |l| ensures l[i].id == ids[i] && l[i].doc == m[ids[i]] { }
    forall id | id in m ensures exists i :: 0 <= i < |l| && l[i].id == id {
      var i :| 0 <= i < |ids| && ids[i] == id;
      assert l[i].id == id;
    }
  }

  /** `Tutorial.find(filter).populate('author', 'username').sort({ createdAt: -1 })`
      where `m` holds the documents the filter selects. */
  function ListView(users: map<Id, User>, m: map<Id, Tutorial>): (l: seq<TutorialView>)
    ensures |l| == |m|
    ensures ListsNewestFirst(l, m)
    ensures forall i :: 0 <= i < |l| ==> l[i] == Populate(users, l[i].id, m[l[i].id])
  {
    var ids := NewestFirst(m);
    var l := PopulateAll(users, m, ids);
    PopulatedListing(users, m, ids, l);
    assert |l| == |m|;
    l
  }
}
