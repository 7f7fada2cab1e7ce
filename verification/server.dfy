/** The handlers registered directly on the app: the `getCurrentUser`
    middleware, the public list and public read, create, the unscoped
    list/read/update/delete under `/api/tutorials`, and `/api/stats`.

    The unscoped handlers are registered before the owner-scoped router is
    mounted on the same prefix, so for `GET /api/tutorials`,
    `GET|PUT|DELETE /api/tutorials/:id` they are the ones that answer. The
    lemmas at the end state how the two sets differ. */
module Server {
  import opened Common
  import opened Text
  import opened Crypto
  import opened Model
  import opened Db
  import opened Http
  import OwnedTutorials

  const BearerPrefix := "Bearer "
  const InvalidId := "Invalid ID"
  const LoginRequired := "Login required"
  const ValidationFailed := "Tutorial validation failed"
  const DuplicateKey := "E11000 duplicate key error"

  /** `getCurrentUser`: strip the first `Bearer ` from the Authorization
      header, verify the token and look the user up. Every failure (no
      header, empty token, bad signature, unknown user) yields an anonymous
      request; nothing here ever answers the request itself. */
  function CurrentUser(o: Oracles, users: map<Id, User>, authorization: Option<string>): (r: Option<Id>)
    ensures authorization.None? ==> r.None?
    ensures r.Some? ==> r.value in users
    ensures r.Some? ==> o.verify(ReplaceFirst(authorization.value, BearerPrefix, "")) == Some(r.value)
    ensures r.Some? ==> ReplaceFirst(authorization.value, BearerPrefix, "") != ""
    ensures authorization.Some? ==>
      var token := ReplaceFirst(authorization.value, BearerPrefix, "");
      token != "" && o.verify(token).Some? && o.verify(token).value in users ==> r == o.verify(token)
  {
    match authorization
    case None => None
    case Some(header) =>
      var token := ReplaceFirst(header, BearerPrefix, "");
      if token == "" then None
      else match o.verify(token)
        case None => None
        case Some(id) => if id in users then Some(id) else None
  }

  /** A request carrying `Bearer <token>` for an existing user runs as that user. */
  lemma SignedTokenIdentifiesUser(o: Oracles, users: map<Id, User>, id: Id)
    requires Lawful(o)
    requires id in users
    ensures CurrentUser(o, users, Some(BearerPrefix + o.sign(id))) == Some(id)
  {
    var h := BearerPrefix + o.sign(id);
    assert h[..|BearerPrefix|] == BearerPrefix;
    assert BearerPrefix <= h;
    assert h[|BearerPrefix|..] == o.sign(id);
    assert ReplaceFirst(h, BearerPrefix, "") == "" + o.sign(id) == o.sign(id);
  }

  /** The route check `/^[0-9a-fA-F]{24}$/`. */
  predicate IsObjectIdString(raw: string) {
    |raw| == 24 && AllHex(raw)
  }

  /** The ObjectId a route parameter denotes, `None` when it fails the check. */
  function ParseObjectId(raw: string): (r: Option<Id>)
    ensures r.Some? <==> IsObjectIdString(raw)
    ensures r.Some? ==> r.value < Pow16(24)
  {
    if IsObjectIdString(raw) then Some(HexValue(raw)) else None
  }

  /** The 24-digit hex form of an ObjectId passes the check and denotes that id. */
  lemma ObjectIdRoundTrip(id: Id)
    requires id < Pow16(24)
    ensures ParseObjectId(ToHex(id, 24)) == Some(id)
  {
    HexRoundTrip(id, 24);
  }

  /** The filter `{ published: true }`. */
  function PublishedSelection(m: map<Id, Tutorial>): (sel: map<Id, Tutorial>)
    ensures forall id :: id in sel <==> id in m && m[id].published
    ensures forall id :: id in sel ==> sel[id] == m[id]
  {
    map id | id in m && m[id].published :: m[id]
  }

  /** The first ten of a newest-first listing are the ten newest: anything
      of the selection left out is no newer than every listed item. */
  lemma FirstTenAreNewest(all: seq<TutorialView>, m: map<Id, Tutorial>, id: Id)
    requires ListsNewestFirst(all, m)
    requires id in m
    requires forall i :: 0 <= i < |all| && i < 10 ==> all[i].id != id
    ensures |all| > 10
    ensures forall i :: 0 <= i < 10 ==> all[i].doc.createdAt >= m[id].createdAt
  {
    var k :| 0 <= k < |all| && all[k].id == id;
    assert k >= 10;
  }

  /** A selected document missing from `l` is only possible when `l` is
      full, and then it is no newer than anything listed. */
  ghost predicate NoneNewerLeftOut(l: seq<TutorialView>, m: map<Id, Tutorial>) {
    forall id :: id in m && (forall i :: 0 <= i < |l| ==> l[i].id != id) ==>
      |l| == 10 && forall i :: 0 <= i < 10 ==> l[i].doc.createdAt >= m[id].createdAt
  }

  /** `.limit(10)` on a newest-first listing of `m`. */
  lemma TakeTen(all: seq<TutorialView>, m: map<Id, Tutorial>, top: seq<TutorialView>)
    requires ListsNewestFirst(all, m)
    requires top == if |all| <= 10 then all else all[..10]
    ensures |top| <= 10
    ensures forall i :: 0 <= i < |top| ==> top[i].id in m && top[i].doc == m[top[i].id]
    ensures forall i, j :: 0 <= i < j < |top| ==> top[i].id != top[j].id && top[i].doc.createdAt >= top[j].doc.createdAt
    ensures NoneNewerLeftOut(top, m)
  {
    forall id | id in m && (forall i :: 0 <= i < |top| ==> top[i].id != id)
      ensures |top| == 10 && forall i :: 0 <= i < 10 ==> top[i].doc.createdAt >= m[id].createdAt
    {
      forall i | 0 <= i < |all| && i < 10 ensures all[i].id != id { assert all[i] == top[i]; }
      FirstTenAreNewest(all, m, id);
    }
  }

  lemma SelectedArePublished(m: map<Id, Tutorial>, l: seq<TutorialView>)
    requires forall i :: 0 <= i < |l| ==> l[i].id in PublishedSelection(m) && l[i].doc == PublishedSelection(m)[l[i].id]
    ensures forall i :: 0 <= i < |l| ==> l[i].id in m && l[i].doc == m[l[i].id] && l[i].doc.published
  {
  }

  /** `GET /api/tutorials/public`: published tutorials of every author,
      newest first, at most ten. */
  function PublicList(s: Store): (r: Step)
    ensures r.store == s && HasStatus(r, 200) && r.reply.body.Many?
    ensures |r.reply.body.list| <= 10
    ensures forall i :: 0 <= i < |r.reply.body.list| ==>
      var v := r.reply.body.list[i]; v.id in s.tutorials && v.doc == s.tutorials[v.id] && v.doc.published
    ensures forall i, j :: 0 <= i < j < |r.reply.body.list| ==>
      r.reply.body.list[i].id != r.reply.body.list[j].id
      && r.reply.body.list[i].doc.createdAt >= r.reply.body.list[j].doc.createdAt
    ensures NoneNewerLeftOut(r.reply.body.list, PublishedSelection(s.tutorials))
  {
    var sel := PublishedSelection(s.tutorials);
    var all := ListView(s.users, sel);
    var top := if |all| <= 10 then all else all[..10];
    TakeTen(all, sel, top);
    SelectedArePublished(s.tutorials, top);
    Step(Reply(200, Many(top)), s)
  }

  /** Whether `tutorial.save()` passes validation: every required path is
      filled. An `author` that no longer resolves is populated as `null`,
      but Mongoose validates the original id, so such a tutorial still saves. */
  predicate SavesCleanly(t: Tutorial) {
    TutorialValid(t)
  }

  /** A tutorial the public read may serve. */
  predicate PubliclyVisible(s: Store, id: Id) {
    id in s.tutorials && s.tutorials[id].published
  }

  /** `GET /api/tutorials/public/:id`: 400 for a malformed id before any
      lookup, 404 unless a published tutorial has that id, otherwise its
      views go up by one and it is saved and returned. */
  function PublicGet(s: Store, raw: string): (r: Step)
    ensures ParseObjectId(raw).None? ==> r == Step(Reply(400, Message(InvalidId)), s)
    ensures ParseObjectId(raw).Some? && !PubliclyVisible(s, ParseObjectId(raw).value) ==>
      r == Step(Reply(404, Message(NotFound)), s)
    ensures HasStatus(r, 200) <==>
      (ParseObjectId(raw).Some? && PubliclyVisible(s, ParseObjectId(raw).value)
       && SavesCleanly(s.tutorials[ParseObjectId(raw).value]))
    ensures ParseObjectId(raw).Some? && PubliclyVisible(s, ParseObjectId(raw).value)
            && !SavesCleanly(s.tutorials[ParseObjectId(raw).value]) ==>
      r == Step(Reply(500, Message(ServerError)), s)
    ensures !HasStatus(r, 200) ==> r.store == s
    ensures HasStatus(r, 200) ==>
      var id := ParseObjectId(raw).value;
      var t := s.tutorials[id].(views := s.tutorials[id].views + 1);
      && r.store == s.(tutorials := s.tutorials[id := t])
      && r.reply == Reply(200, One(Populate(s.users, id, t)))
  {
    match ParseObjectId(raw)
    case None => Step(Reply(400, Message(InvalidId)), s)
    case Some(id) =>
      if !PubliclyVisible(s, id) then Step(Reply(404, Message(NotFound)), s)
      else
        var t := s.tutorials[id].(views := s.tutorials[id].views + 1);
        if !SavesCleanly(t) then Step(Reply(500, Message(ServerError)), s)
        else Step(Reply(200, One(Populate(s.users, id, t))), s.(tutorials := s.tutorials[id := t]))
  }

  /** A published tutorial whose author was deleted (or was set, by an
      update, to an id no user has) is still served, with a `null` author,
      and its views still go up. */
  lemma PublicGetServesOrphanedTutorial(s: Store, id: Id)
    requires id < Pow16(24) && id in s.tutorials
    requires s.tutorials[id].published && TutorialValid(s.tutorials[id]) && s.tutorials[id].author !in s.users
    ensures var r := PublicGet(s, ToHex(id, 24));
      && HasStatus(r, 200)
      && r.reply.body.tutorial.author == Populated(None)
      && r.store.tutorials[id].views == s.tutorials[id].views + 1
  {
    ObjectIdRoundTrip(id);
  }

  /** The store after the same public read is issued `n` times in a row. */
  function FetchRepeatedly(s: Store, raw: string, n: nat): Store
    decreases n
  {
    if n == 0 then s else FetchRepeatedly(PublicGet(s, raw).store, raw, n - 1)
  }

  /** `n` successive public reads of a servable tutorial add exactly `n` to
      its views and change nothing else. */
  lemma {:induction false} RepeatedFetchesCountEachView(s: Store, raw: string, n: nat)
    requires HasStatus(PublicGet(s, raw), 200)
    decreases n
    ensures var id := ParseObjectId(raw).value;
      FetchRepeatedly(s, raw, n) == s.(tutorials := s.tutorials[id := s.tutorials[id].(views := s.tutorials[id].views + n)])
  {
    var id := ParseObjectId(raw).value;
    if n > 0 {
      var s1 := PublicGet(s, raw).store;
      assert s1.tutorials[id] == s.tutorials[id].(views := s.tutorials[id].views + 1);
      assert HasStatus(PublicGet(s1, raw), 200);
      RepeatedFetchesCountEachView(s1, raw, n - 1);
      assert s1.tutorials[id := s1.tutorials[id].(views := s1.tutorials[id].views + (n - 1))]
          == s.tutorials[id := s.tutorials[id].(views := s.tutorials[id].views + n)];
    }
  }

  /** `POST /api/tutorials`: 401 for an anonymous request; otherwise the
      body spread with `author` set to the requester and `published` forced
      to true, validated and inserted. A failing save answers 400. */
  function Create(s: Store, current: Option<Id>, body: TutorialFields, newId: Id, now: nat): (r: Step)
    ensures current.None? ==> r == Step(Reply(401, Message(LoginRequired)), s)
    ensures HasStatus(r, 201) <==>
      (current.Some? && body.title.Some? && body.title.value != "" && newId !in s.tutorials
       && (body.sections.Some? ==> forall i :: 0 <= i < |body.sections.value| ==> SectionValid(body.sections.value[i])))
    ensures current.Some? && !HasStatus(r, 201) ==> r.reply.Reply? && r.reply.status == 400
    ensures !HasStatus(r, 201) ==> r.store == s
    ensures HasStatus(r, 201) ==> newId in r.store.tutorials && var t := r.store.tutorials[newId];
      && r.store == s.(tutorials := s.tutorials[newId := t])
      && t.author == current.value && t.published && t.createdAt == now
      && t.title == body.title.value && t.sections == body.sections.GetOr([]) && t.tags == body.tags.GetOr([])
      && t.views == body.views.GetOr(0)
      && r.reply == Reply(201, One(Populate(s.users, newId, t)))
  {
    match current
    case None => Step(Reply(401, Message(LoginRequired)), s)
    case Some(uid) =>
      match BuildTutorial(body.(author := Some(uid), published := Some(true)), now)
      case None => Step(Reply(400, Message(ValidationFailed)), s)
      case Some(t) =>
        if newId in s.tutorials then Step(Reply(400, Message(DuplicateKey)), s)
        else Step(Reply(201, One(Populate(s.users, newId, t))), s.(tutorials := s.tutorials[newId := t]))
  }

  /** Creating a tutorial and reading it back through the owner's read
      returns the same sections in the same order, each with the quiz it
      was given, published, with the given title. */
  lemma CreateThenReadBack(s: Store, uid: Id, body: TutorialFields, newId: Id, now: nat)
    requires HasStatus(Create(s, Some(uid), body, newId, now), 201)
    ensures var s1 := Create(s, Some(uid), body, newId, now).store;
      var r := OwnedTutorials.GetOwn(s1, uid, newId);
      && HasStatus(r, 200)
      && r.reply.body.tutorial.doc.sections == body.sections.GetOr([])
      && r.reply.body.tutorial.doc.title == body.title.value
      && r.reply.body.tutorial.doc.published
  {
  }

  /** The unscoped `GET /api/tutorials`: every tutorial of every author,
      newest first, whatever the query string says. */
  function ListAll(s: Store): (r: Step)
    ensures r.store == s && HasStatus(r, 200) && r.reply.body.Many?
    ensures ListsNewestFirst(r.reply.body.list, s.tutorials)
  {
    Step(Reply(200, Many(ListView(s.users, s.tutorials))), s)
  }

  /** The unscoped `GET /api/tutorials/:id`: any existing tutorial, drafts included. */
  function GetAny(s: Store, id: Id): (r: Step)
    ensures r.store == s
    ensures id !in s.tutorials <==> r.reply == Reply(404, Message(NotFound))
    ensures id in s.tutorials ==> r.reply == Reply(200, One(Populate(s.users, id, s.tutorials[id])))
  {
    if id !in s.tutorials then Step(Reply(404, Message(NotFound)), s)
    else Step(Reply(200, One(Populate(s.users, id, s.tutorials[id]))), s)
  }

  /** The unscoped `PUT /api/tutorials/:id`: no ownership check; the body
      is applied with `published` set to `body.published !== false`. */
  function PutAny(s: Store, id: Id, f: TutorialFields): (r: Step)
    ensures id !in s.tutorials ==> r == Step(Reply(404, Message(NotFound)), s)
    ensures id in s.tutorials ==> id in r.store.tutorials && var t := r.store.tutorials[id];
      && r.store == s.(tutorials := s.tutorials[id := t])
      && t == ApplyUpdate(s.tutorials[id], f.(published := Some(t.published)))
      && (t.published <==> f.published != Some(false))
      && r.reply == Reply(200, One(Populate(s.users, id, t)))
  {
    if id !in s.tutorials then Step(Reply(404, Message(NotFound)), s)
    else
      var t := ApplyUpdate(s.tutorials[id], f.(published := Some(f.published != Some(false))));
      Step(Reply(200, One(Populate(s.users, id, t))), s.(tutorials := s.tutorials[id := t]))
  }

  /** The unscoped `DELETE /api/tutorials/:id`: removes any existing tutorial. */
  function DeleteAny(s: Store, id: Id): (r: Step)
    ensures id !in s.tutorials ==> r == Step(Reply(404, Message(NotFound)), s)
    ensures id in s.tutorials ==>
      && r.reply == Reply(200, Message("Tutorial deleted successfully"))
      && r.store == s.(tutorials := s.tutorials - {id})
  {
    if id !in s.tutorials then Step(Reply(404, Message(NotFound)), s)
    else Step(Reply(200, Message("Tutorial deleted successfully")), s.(tutorials := s.tutorials - {id}))
  }

  /** `GET /api/stats`: tutorial count, user count (reported as `authors`,
      though it counts every user) and the total of all views. */
  function Stats(s: Store): (r: Step)
    ensures r.store == s && HasStatus(r, 200)
    ensures r.reply.body == Totals(|s.tutorials.Keys|, |s.users.Keys|, SumViews(s.tutorials))
    ensures r.reply.body == Totals(GetTutorialStats(s).totalTutorials, GetUserStats(s).totalUsers,
                                   GetTutorialStats(s).totalViews)
  {
    var views := if s.tutorials == map[] then 0 else SumViews(s.tutorials);
    Step(Reply(200, Totals(|s.tutorials|, |s.users|, views)), s)
  }

  /** A successful public read raises the reported total of views by exactly one. */
  lemma PublicGetRaisesTotalViews(s: Store, raw: string)
    requires HasStatus(PublicGet(s, raw), 200)
    ensures Stats(PublicGet(s, raw).store).reply.body.views == Stats(s).reply.body.views + 1
  {
    var id := ParseObjectId(raw).value;
    var t := s.tutorials[id].(views := s.tutorials[id].views + 1);
    SumViewsUpdate(s.tutorials, id, t);
  }

  /** Creating a tutorial adds one to the tutorial count and its initial
      views to the total. */
  lemma CreateRaisesTotals(s: Store, uid: Id, body: TutorialFields, newId: Id, now: nat)
    requires HasStatus(Create(s, Some(uid), body, newId, now), 201)
    ensures var s1 := Create(s, Some(uid), body, newId, now).store;
      && Stats(s1).reply.body.tutorials == Stats(s).reply.body.tutorials + 1
      && Stats(s1).reply.body.views == Stats(s).reply.body.views + s1.tutorials[newId].views
  {
    var s1 := Create(s, Some(uid), body, newId, now).store;
    SumViewsInsert(s.tutorials, newId, s1.tutorials[newId]);
  }

  // How the unscoped handlers, which answer in the running app, differ
  // from the owner-scoped router they shadow.

  /** Another user's tutorial: hidden by the owner-scoped read, served by
      the unscoped one. */
  lemma ShadowedReadExposesOthersTutorials(s: Store, id: Id, other: Id)
    requires id in s.tutorials && s.tutorials[id].author != other
    ensures OwnedTutorials.GetOwn(s, other, id).reply.status == 404
    ensures GetAny(s, id).reply.status == 200
  {
  }

  /** Another user's tutorial: untouched by the owner-scoped update, rewritten
      by the unscoped one. */
  lemma ShadowedUpdateEditsOthersTutorials(s: Store, id: Id, other: Id, f: TutorialFields)
    requires id in s.tutorials && s.tutorials[id].author != other
    ensures OwnedTutorials.PutOwn(s, other, id, f).store == s
    ensures PutAny(s, id, f).store.tutorials[id] ==
      ApplyUpdate(s.tutorials[id], f.(published := Some(f.published != Some(false))))
  {
  }

  /** Another user's tutorial: kept by the owner-scoped delete, removed by
      the unscoped one. */
  lemma ShadowedDeleteRemovesOthersTutorials(s: Store, id: Id, other: Id)
    requires id in s.tutorials && s.tutorials[id].author != other
    ensures id in OwnedTutorials.DeleteOwn(s, other, id).store.tutorials
    ensures id !in DeleteAny(s, id).store.tutorials
  {
  }

  /** An edit through the unscoped update that does not mention `published`
      publishes the tutorial, even a draft. */
  lemma ShadowedUpdatePublishesDrafts(s: Store, id: Id, f: TutorialFields)
    requires id in s.tutorials && !s.tutorials[id].published
    requires f.published.None?
    ensures PutAny(s, id, f).store.tutorials[id].published
  {
  }

  /** The unscoped list ignores both the owner and the `published` filter:
      a draft of another user is listed. */
  lemma ShadowedListIgnoresFilters(s: Store, requester: Id, id: Id)
    requires id in s.tutorials && s.tutorials[id].author != requester && !s.tutorials[id].published
    ensures exists i :: 0 <= i < |ListAll(s).reply.body.list| && ListAll(s).reply.body.list[i].id == id
    ensures forall i :: 0 <= i < |OwnedTutorials.ListOwn(s, requester, Some("false")).reply.body.list| ==>
      OwnedTutorials.ListOwn(s, requester, Some("false")).reply.body.list[i].id != id
  {
    var l := ListAll(s).reply.body.list;
    assert ListsNewestFirst(l, s.tutorials);
    assert exists i :: 0 <= i < |l| && l[i].id == id;
  }
}
