/** The document store as two maps, and the queries the handlers issue
    against it: `findOne` by e-mail, the `createdAt` newest-first sort, and
    the aggregate counts behind the two `getStats` statics. */
module Db {
  import opened Common
  import opened Crypto
  import opened Model

  datatype Store = Store(users: map<Id, User>, tutorials: map<Id, Tutorial>)

  /** The unique indexes of the user schema: no two users share a username
      or an e-mail address. */
  ghost predicate UniqueCredentials(users: map<Id, User>) {
    forall a, b :: a in users && b in users && a != b ==>
      users[a].username != users[b].username && users[a].email != users[b].email
  }

  predicate IsMin(s: set<Id>, x: Id) {
    x in s && forall y :: y in s ==> x <= y
  }

  lemma {:induction false} MinExists(s: set<Id>)
    requires s != {}
    ensures exists x :: IsMin(s, x)
    decreases |s|
  {
    var x :| x in s;
    if s == {x} {
      assert IsMin(s, x);
    } else {
      var rest := s - {x};
      MinExists(rest);
      var m :| IsMin(rest, m);
      var best := if x < m then x else m;
      forall y | y in s ensures best <= y {
        if y != x { assert y in rest; }
      }
      assert IsMin(s, best);
    }
  }

  /** The least id of a non-empty set: the collection's natural order, in
      which `findOne` without a sort returns its first match. */
  function MinId(s: set<Id>): (m: Id)
    requires s != {}
    ensures IsMin(s, m)
  {
    MinExists(s);
    var x :| IsMin(s, x); x
  }

  /** `User.findOne({ email })`. */
  function FindUserByEmail(users: map<Id, User>, email: string): (r: Option<Id>)
    ensures r.None? <==> forall id :: id in users ==> users[id].email != email
    ensures r.Some? ==> r.value in users && users[r.value].email == email
    ensures r.Some? && UniqueCredentials(users) ==>
      forall id :: id in users && users[id].email == email ==> id == r.value
  {
    var matches := set id | id in users && users[id].email == email;
    assert forall id :: id in users && users[id].email == email ==> id in matches;
    if matches == {} then None else Some(MinId(matches))
  }

  /** `(c1, id1)` is at least as new as `(c2, id2)`: later `createdAt` first,
      equal timestamps broken by the larger id. */
  predicate AtLeastAsNew(c1: nat, id1: Id, c2: nat, id2: Id) {
    c1 > c2 || (c1 == c2 && id1 >= id2)
  }

  predicate IsNewest(m: map<Id, Tutorial>, k: Id) {
    k in m && forall j :: j in m ==> AtLeastAsNew(m[k].createdAt, k, m[j].createdAt, j)
  }

  lemma {:induction false} NewestExists(m: map<Id, Tutorial>)
    requires m != map[]
    ensures exists k :: IsNewest(m, k)
    decreases |m|
  {
    var x :| x in m;
    var rest := m - {x};
    assert rest.Keys == m.Keys - {x};
    if rest == map[] {
      assert rest.Keys == {};
      assert m.Keys == {x};
      assert IsNewest(m, x);
    } else {
      assert |rest| < |m| by { assert rest.Keys == m.Keys - {x}; }
      NewestExists(rest);
      var n :| IsNewest(rest, n);
      var best := if AtLeastAsNew(m[x].createdAt, x, m[n].createdAt, n) then x else n;
      forall j | j in m ensures AtLeastAsNew(m[best].createdAt, best, m[j].createdAt, j) {
        if j != x { assert j in rest; }
      }
      assert IsNewest(m, best);
    }
  }

  /** The newest tutorial of a non-empty map. */
  function NewestKey(m: map<Id, Tutorial>): (k: Id)
    requires m != map[]
    ensures IsNewest(m, k)
  {
    NewestExists(m);
    var k :| IsNewest(m, k); k
  }

  /** `r` lists every key of `m` exactly once. */
  ghost predicate Enumerates(m: map<Id, Tutorial>, r: seq<Id>) {
    && (forall i :: 0 <= i < |r| ==> r[i] in m)
    && (forall k :: k in m ==> k in r)
    && (forall i, j :: 0 <= i < j < |r| ==> r[i] != r[j])
  }

  /** Along `r` the creation times never increase. */
  ghost predicate NewestFirstOrder(m: map<Id, Tutorial>, r: seq<Id>)
    requires forall i :: 0 <= i < |r| ==> r[i] in m
  {
    forall i, j :: 0 <= i < j < |r| ==> m[r[i]].createdAt >= m[r[j]].createdAt
  }

  lemma PrependCovers(m: map<Id, Tutorial>, k: Id, tail: seq<Id>)
    requires k in m
    requires forall i :: 0 <= i < |tail| ==> tail[i] in m - {k}
    requires forall j :: j in m - {k} ==> j in tail
    ensures forall i :: 0 <= i < |[k] + tail| ==> ([k] + tail)[i] in m
    ensures forall j :: j in m ==> j in [k] + tail
  {
    var r := [k] + tail;
    forall i | 0 <= i < |r| ensures r[i] in m {
      if i > 0 { assert r[i] == tail[i - 1]; }
    }
    forall j | j in m ensures j in r {
      if j != k {
        assert j in m - {k};
        var i :| 0 <= i < |tail| && tail[i] == j;
        assert r[i + 1] == j;
      }
    }
  }

  lemma PrependDistinctOrdered(m: map<Id, Tutorial>, k: Id, tail: seq<Id>)
    requires IsNewest(m, k)
    requires forall i :: 0 <= i < |tail| ==> tail[i] in m && tail[i] != k
    requires forall i, j :: 0 <= i < j < |tail| ==> tail[i] != tail[j] && m[tail[i]].createdAt >= m[tail[j]].createdAt
    ensures forall i, j :: 0 <= i < j < |[k] + tail| ==>
      ([k] + tail)[i] != ([k] + tail)[j] && m[([k] + tail)[i]].createdAt >= m[([k] + tail)[j]].createdAt
  {
    var r := [k] + tail;
    forall i, j | 0 <= i < j < |r| ensures r[i] != r[j] && m[r[i]].createdAt >= m[r[j]].createdAt {
      assert r[j] == tail[j - 1];
      if i > 0 { assert r[i] == tail[i - 1]; }
    }
  }

  /** Putting the newest key in front of a newest-first listing of the
      other keys gives a newest-first listing of all of them. */
  lemma NewestPrepend(m: map<Id, Tutorial>, k: Id, tail: seq<Id>)
    requires IsNewest(m, k)
    requires Enumerates(m - {k}, tail)
    requires NewestFirstOrder(m - {k}, tail)
    ensures Enumerates(m, [k] + tail)
    ensures NewestFirstOrder(m, [k] + tail)
  {
    var rest := m - {k};
    PrependCovers(m, k, tail);
    assert forall i :: 0 <= i < |tail| ==> tail[i] in m && tail[i] != k && rest[tail[i]] == m[tail[i]];
    PrependDistinctOrdered(m, k, tail);
  }

  /** The ids of `m` in `sort({ createdAt: -1 })` order. */
  function NewestFirst(m: map<Id, Tutorial>): (r: seq<Id>)
    ensures |r| == |m|
    ensures Enumerates(m, r)
    ensures NewestFirstOrder(m, r)
    decreases |m|
  {
    if m == map[] then []
    else
      var k := NewestKey(m);
      var rest := m - {k};
      assert rest.Keys == m.Keys - {k};
      var tail := NewestFirst(rest);
      NewestPrepend(m, k, tail);
      [k] + tail
  }

  /** The `$group` / `$sum: '$views'` aggregate: the views of all tutorials
      added up, 0 for an empty collection. */
  function SumViews(m: map<Id, Tutorial>): (total: int)
    ensures m == map[] ==> total == 0
    ensures (forall k :: k in m ==> m[k].views == 0) ==> total == 0
    decreases |m|
  {
    if m == map[] then 0
    else
      var k := MinId(m.Keys);
      assert (m - {k}).Keys == m.Keys - {k};
      m[k].views + SumViews(m - {k})
  }

  /** The sum does not depend on which tutorial is taken out first. */
  lemma {:induction false} SumViewsRemove(m: map<Id, Tutorial>, k: Id)
    requires k in m
    ensures SumViews(m) == m[k].views + SumViews(m - {k})
    decreases |m|
  {
    var k0 := MinId(m.Keys);
    assert (m - {k0}).Keys == m.Keys - {k0};
    if k != k0 {
      var both := m - {k0} - {k};
      assert (m - {k0}) - {k} == both;
      assert (m - {k}) - {k0} == both;
      assert (m - {k}).Keys == m.Keys - {k};
      SumViewsRemove(m - {k0}, k);
      SumViewsRemove(m - {k}, k0);
    }
  }

  /** Changing the views of one tutorial by `d` changes the sum by `d`. */
  lemma SumViewsUpdate(m: map<Id, Tutorial>, k: Id, t: Tutorial)
    requires k in m
    ensures SumViews(m[k := t]) == SumViews(m) + (t.views - m[k].views)
  {
    SumViewsRemove(m, k);
    SumViewsRemove(m[k := t], k);
    assert m[k := t] - {k} == m - {k};
  }

  /** Inserting a new tutorial adds its views to the total. */
  lemma SumViewsInsert(m: map<Id, Tutorial>, k: Id, t: Tutorial)
    requires k !in m
    ensures SumViews(m[k := t]) == SumViews(m) + t.views
    ensures |m[k := t].Keys| == |m.Keys| + 1
  {
    SumViewsRemove(m[k := t], k);
    assert m[k := t] - {k} == m;
    assert m[k := t].Keys == m.Keys + {k};
  }

  /** Every view count is non-negative, so is their sum. */
  lemma {:induction false} SumViewsNonNegative(m: map<Id, Tutorial>)
    requires forall k :: k in m ==> m[k].views >= 0
    ensures SumViews(m) >= 0
    decreases |m|
  {
    if m != map[] {
      var k := MinId(m.Keys);
      assert (m - {k}).Keys == m.Keys - {k};
      SumViewsNonNegative(m - {k});
    }
  }

  datatype UserStats = UserStats(totalUsers: nat, totalTutorials: nat)
  datatype TutorialStats = TutorialStats(totalTutorials: nat, totalViews: int)

  /** `User.getStats()`, with `estimatedDocumentCount` taken as exact. */
  function GetUserStats(s: Store): (r: UserStats)
    ensures r.totalUsers == |s.users.Keys| && r.totalTutorials == |s.tutorials.Keys|
  {
    UserStats(|s.users|, |s.tutorials|)
  }

  /** `Tutorial.getStats()`. An empty collection yields no group, and
      `stats[0]?.totalViews || 0` turns that into 0, which is also the sum
      over nothing; so the total is the plain sum in every case. */
  function GetTutorialStats(s: Store): (r: TutorialStats)
    ensures r.totalTutorials == |s.tutorials.Keys|
    ensures r.totalViews == SumViews(s.tutorials)
    ensures s.tutorials == map[] ==> r.totalViews == 0
  {
    var total := if s.tutorials == map[] then 0 else SumViews(s.tutorials);
    TutorialStats(|s.tutorials|, total)
  }
}
