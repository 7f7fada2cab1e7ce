/** The owner-scoped tutorial router, mounted under `/api/tutorials` behind
    the `auth` middleware; `requester` is the id that middleware attaches. */
module OwnedTutorials {
  import opened Common
  import opened Crypto
  import opened Model
  import opened Db
  import opened Http

  /** The `published` query parameter: exactly `'true'` or `'false'`
      filters, anything else (or nothing) does not. */
  function PublishedFilter(query: Option<string>): (r: Option<bool>)
    ensures query == Some("true") ==> r == Some(true)
    ensures query == Some("false") ==> r == Some(false)
    ensures query != Some("true") && query != Some("false") ==> r.None?
  {
    if query == Some("true") then Some(true)
    else if query == Some("false") then Some(false)
    else None
  }

  /** The filter `{ author: requester, published? }`. */
  function OwnedSelection(m: map<Id, Tutorial>, requester: Id, published: Option<bool>): (sel: map<Id, Tutorial>)
    ensures forall id :: id in sel <==>
      (id in m && m[id].author == requester && (published.Some? ==> m[id].published == published.value))
    ensures forall id :: id in sel ==> sel[id] == m[id]
  {
    map id | id in m && m[id].author == requester && (published.None? || m[id].published == published.value) :: m[id]
  }

  /** The requester owns the tutorial with that id. */
  predicate Owns(s: Store, requester: Id, id: Id) {
    id in s.tutorials && s.tutorials[id].author == requester
  }

  /** `GET /api/tutorials`: the requester's tutorials, optionally filtered
      on `published`, newest first. */
  function ListOwn(s: Store, requester: Id, query: Option<string>): (r: Step)
    ensures r.store == s && HasStatus(r, 200) && r.reply.body.Many?
    ensures ListsNewestFirst(r.reply.body.list, OwnedSelection(s.tutorials, requester, PublishedFilter(query)))
    ensures forall i :: 0 <= i < |r.reply.body.list| ==> r.reply.body.list[i].doc.author == requester
    ensures query == Some("true") ==> forall i :: 0 <= i < |r.reply.body.list| ==> r.reply.body.list[i].doc.published
    ensures query == Some("false") ==> forall i :: 0 <= i < |r.reply.body.list| ==> !r.reply.body.list[i].doc.published
  {
    var sel := OwnedSelection(s.tutorials, requester, PublishedFilter(query));
    Step(Reply(200, Many(ListView(s.users, sel))), s)
  }

  /** `GET /api/tutorials/:id`: 404 unless the tutorial exists and the
      requester is its author. */
  function GetOwn(s: Store, requester: Id, id: Id): (r: Step)
    ensures r.store == s
    ensures !Owns(s, requester, id) <==> r.reply == Reply(404, Message(NotFound))
    ensures Owns(s, requester, id) ==>
      r.reply == Reply(200, One(Populate(s.users, id, s.tutorials[id])))
  {
    if !Owns(s, requester, id) then Step(Reply(404, Message(NotFound)), s)
    else Step(Reply(200, One(Populate(s.users, id, s.tutorials[id]))), s)
  }

  /** `PUT /api/tutorials/:id`: `findOneAndUpdate` on `{ _id, author }` with
      the body as the update and no validators; the reply is the updated
      document, not populated. */
  function PutOwn(s: Store, requester: Id, id: Id, f: TutorialFields): (r: Step)
    ensures !Owns(s, requester, id) ==> r == Step(Reply(404, Message(NotFound)), s)
    ensures Owns(s, requester, id) ==>
      && r.store.users == s.users
      && r.store.tutorials.Keys == s.tutorials.Keys
      && r.store.tutorials[id] == ApplyUpdate(s.tutorials[id], f)
      && r.reply == Reply(200, One(TutorialView(id, r.store.tutorials[id], AuthorId(r.store.tutorials[id].author))))
    ensures forall k :: k in s.tutorials && k != id ==> k in r.store.tutorials && r.store.tutorials[k] == s.tutorials[k]
  {
    if !Owns(s, requester, id) then Step(Reply(404, Message(NotFound)), s)
    else
      var t := ApplyUpdate(s.tutorials[id], f);
      Step(Reply(200, One(TutorialView(id, t, AuthorId(t.author)))), s.(tutorials := s.tutorials[id := t]))
  }

  /** `DELETE /api/tutorials/:id`: removes the tutorial only when the
      requester owns it. */
  function DeleteOwn(s: Store, requester: Id, id: Id): (r: Step)
    ensures !Owns(s, requester, id) ==> r == Step(Reply(404, Message(NotFound)), s)
    ensures Owns(s, requester, id) ==>
      && r.reply == Reply(200, Message("Deleted"))
      && r.store.users == s.users
      && r.store.tutorials.Keys == s.tutorials.Keys - {id}
    ensures forall k :: k in s.tutorials && k != id ==> k in r.store.tutorials && r.store.tutorials[k] == s.tutorials[k]
  {
    if !Owns(s, requester, id) then Step(Reply(404, Message(NotFound)), s)
    else Step(Reply(200, Message("Deleted")), s.(tutorials := s.tutorials - {id}))
  }

  /** A tutorial written by one user is out of reach of every other user on
      this router: reading, updating and deleting it all answer 404 and
      leave the store as it was. */
  lemma OwnershipIsolation(s: Store, id: Id, other: Id, f: TutorialFields)
    requires id in s.tutorials && s.tutorials[id].author != other
    ensures GetOwn(s, other, id) == Step(Reply(404, Message(NotFound)), s)
    ensures PutOwn(s, other, id, f) == Step(Reply(404, Message(NotFound)), s)
    ensures DeleteOwn(s, other, id) == Step(Reply(404, Message(NotFound)), s)
    ensures forall i :: 0 <= i < |ListOwn(s, other, None).reply.body.list| ==>
      ListOwn(s, other, None).reply.body.list[i].id != id
  {
  }
}
