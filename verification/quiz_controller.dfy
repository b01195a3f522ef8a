/** The Quiz API (`api/quiz`): read one quiz and the three list queries the
    home page uses. Create, edit and delete are declared but throw
    NotImplementedException. */
module QuizController {
  import opened Base
  import opened Order
  import opened Entities
  import opened Database
  import opened Api

  /** The default of the optional `{num}` route segment. */
  const DefaultCount := 10

  /** GET api/quiz/{id}. There is no not-found branch: an absent id maps to
      a null view model, answered as a 200 with a null body. */
  function Get(s: Store, id: int): (o: Outcome<Option<Quiz>>)
    ensures o.store == s && o.response.Ok?
    ensures id in s.quizzes ==> o.response.body == Some(s.quizzes[id])
    ensures id !in s.quizzes ==> o.response.body == None
  {
    Outcome(s, Ok(if id in s.quizzes then Some(s.quizzes[id]) else None))
  }

  /** PUT api/quiz: not implemented. */
  function Put(s: Store, model: Option<Quiz>): (o: Outcome<Quiz>)
    ensures o.store == s && o.response.NotImplemented?
  {
    Outcome(s, NotImplemented)
  }

  /** POST api/quiz: not implemented. */
  function Post(s: Store, model: Option<Quiz>): (o: Outcome<Quiz>)
    ensures o.store == s && o.response.NotImplemented?
  {
    Outcome(s, NotImplemented)
  }

  /** DELETE api/quiz/{id}: not implemented; in particular nothing cascades. */
  function Delete(s: Store, id: int): (o: Outcome<()>)
    ensures o.store == s && o.response.NotImplemented?
  {
    Outcome(s, NotImplemented)
  }

  /** The Quizzes table, in ascending key order: one of the orders a query
      without ORDER BY may read it in. SQL Server promises none. */
  function Table(s: Store): (r: seq<Quiz>)
    ensures |r| == |s.quizzes|
    ensures forall q :: q in r <==> q in s.quizzes.Values
  {
    var r := Scan(s.quizzes, s.quizzes.Keys);
    assert forall q :: q in r ==> q in s.quizzes.Values by {
      forall q | q in r ensures q in s.quizzes.Values {
        var i :| 0 <= i < |r| && r[i] == q;
      }
    }
    r
  }

  /** Rows stored under their own ids are all different. */
  lemma TableHasNoDuplicates(s: Store)
    requires KeysMatch(s)
    ensures NoDuplicates(Table(s))
  {
    ScanIdsAscend(s.quizzes, s.quizzes.Keys, (q: Quiz) => q.id);
  }

  /** `Quizzes.OrderBy(le).Take(num).ToArray()` with `num` defaulting to 10.
      The query runs in the database as `SELECT TOP(num) ... ORDER BY`, so a
      negative `num` is refused there and the action fails. Otherwise it is
      a read-only query whose rows are ordered by `le`, drawn from the table,
      `min(num, table size)` of them, with nothing left out that comes before
      the last row returned. */
  function Query(s: Store, le: (Quiz, Quiz) -> bool, num: Option<int>): (o: Outcome<seq<Quiz>>)
    requires TotalPreorder(le)
    ensures o.store == s
    ensures o.response.Ok? <==> num.GetOr(DefaultCount) >= 0
    ensures !o.response.Ok? ==> o.response == QueryError
    ensures o.response.Ok? ==> |o.response.body| == Kept(num.GetOr(DefaultCount), |s.quizzes|)
    ensures o.response.Ok? ==> SortedBy(o.response.body, le)
    ensures o.response.Ok? ==> multiset(o.response.body) <= multiset(Table(s))
    ensures o.response.Ok? ==> forall q :: q in o.response.body ==> q in s.quizzes.Values
    ensures o.response.Ok? ==> var r := o.response.body;
      |r| > 0 ==> forall q :: q in multiset(Table(s)) - multiset(r) ==> le(r[|r| - 1], q)
  {
    var n := num.GetOr(DefaultCount);
    if n < 0 then Outcome(s, QueryError)
    else Outcome(s, Ok(TopN(Table(s), le, n)))
  }

  /** `OrderByDescending(quiz => quiz.CreatedDate)`: newer first. */
  function NewerOrSame(a: Quiz, b: Quiz): bool {
    a.createdDate >= b.createdDate
  }

  lemma NewerOrSameIsTotalPreorder()
    ensures TotalPreorder(NewerOrSame)
  {
  }

  /** GET api/quiz/Latest/{num}: the `num` (default 10) most recently
      created quizzes, newest first. */
  function Latest(s: Store, num: Option<int>): (o: Outcome<seq<Quiz>>)
    ensures o.store == s
    ensures o.response.Ok? <==> num.GetOr(DefaultCount) >= 0
    ensures !o.response.Ok? ==> o.response == QueryError
    ensures o.response.Ok? ==> |o.response.body| == Kept(num.GetOr(DefaultCount), |s.quizzes|)
    ensures o.response.Ok? ==> SortedBy(o.response.body, NewerOrSame)
    ensures o.response.Ok? ==> multiset(o.response.body) <= multiset(Table(s))
    ensures o.response.Ok? ==> forall q :: q in o.response.body ==> q in s.quizzes.Values
    ensures o.response.Ok? ==> var r := o.response.body;
      |r| > 0 ==> forall q :: q in multiset(Table(s)) - multiset(r) ==> NewerOrSame(r[|r| - 1], q)
  {
    NewerOrSameIsTotalPreorder();
    Query(s, NewerOrSame, num)
  }

  /** SQL ordering of a nullable title: NULL first, then ordinal order. */
  predicate TitleLe(a: Option<string>, b: Option<string>) {
    a.None? || (b.Some? && StrLe(a.value, b.value))
  }

  /** `OrderBy(quiz => quiz.Title)`. */
  function TitleFirst(a: Quiz, b: Quiz): bool {
    TitleLe(a.title, b.title)
  }

  lemma TitleFirstIsTotalPreorder()
    ensures TotalPreorder(TitleFirst)
  {
    StrLeIsTotalOrder();
  }

  /** GET api/quiz/ByTitle/{num}: the first `num` (default 10) quizzes in
      title order. */
  function ByTitle(s: Store, num: Option<int>): (o: Outcome<seq<Quiz>>)
    ensures o.store == s
    ensures o.response.Ok? <==> num.GetOr(DefaultCount) >= 0
    ensures !o.response.Ok? ==> o.response == QueryError
    ensures o.response.Ok? ==> |o.response.body| == Kept(num.GetOr(DefaultCount), |s.quizzes|)
    ensures o.response.Ok? ==> forall i, j :: 0 <= i < j < |o.response.body| ==>
      TitleLe(o.response.body[i].title, o.response.body[j].title)
    ensures o.response.Ok? ==> multiset(o.response.body) <= multiset(Table(s))
    ensures o.response.Ok? ==> forall q :: q in o.response.body ==> q in s.quizzes.Values
    ensures o.response.Ok? ==> var r := o.response.body;
      |r| > 0 ==> forall q :: q in multiset(Table(s)) - multiset(r) ==> TitleLe(r[|r| - 1].title, q.title)
  {
    TitleFirstIsTotalPreorder();
    Query(s, TitleFirst, num)
  }

  /** `OrderBy(quiz => Guid.NewGuid())` with the fresh GUID of each quiz
      given as `guid(quiz.Id)`. */
  function ByGuid(guid: int -> int): (le: (Quiz, Quiz) -> bool)
    ensures TotalPreorder(le)
  {
    (a: Quiz, b: Quiz) => guid(a.id) <= guid(b.id)
  }

  /** GET api/quiz/Random/{num}: `num` (default 10) quizzes in the order of
      a random key drawn per quiz. */
  function Random(s: Store, num: Option<int>, guid: int -> int): (o: Outcome<seq<Quiz>>)
    ensures o.store == s
    ensures o.response.Ok? <==> num.GetOr(DefaultCount) >= 0
    ensures !o.response.Ok? ==> o.response == QueryError
    ensures o.response.Ok? ==> |o.response.body| == Kept(num.GetOr(DefaultCount), |s.quizzes|)
    ensures o.response.Ok? ==> multiset(o.response.body) <= multiset(Table(s))
    ensures o.response.Ok? ==> forall q :: q in o.response.body ==> q in s.quizzes.Values
  {
    Query(s, ByGuid(guid), num)
  }

  /** Random never returns the same quiz twice. */
  lemma RandomIsDistinct(s: Store, num: Option<int>, guid: int -> int)
    requires KeysMatch(s)
    ensures var o := Random(s, num, guid);
      o.response.Ok? ==> NoDuplicates(o.response.body)
  {
    TableHasNoDuplicates(s);
  }

  /** A quiz that every other quiz comes strictly after is the one a
      single-row query returns. */
  lemma QueryPicksStrictlyFirst(s: Store, le: (Quiz, Quiz) -> bool, id: int)
    requires TotalPreorder(le) && id in s.quizzes
    requires forall k :: k in s.quizzes && le(s.quizzes[k], s.quizzes[id]) ==> s.quizzes[k] == s.quizzes[id]
    ensures Query(s, le, Some(1)).response.body == [s.quizzes[id]]
  {
    var chosen := s.quizzes[id];
    forall q | q in Table(s) && le(q, chosen) ensures q == chosen {
      var k :| k in s.quizzes && s.quizzes[k] == q;
    }
    TopOneIsStrictMinimum(Table(s), le, chosen);
  }

  /** Every quiz can be the one Random picks: for each stored quiz some draw
      of keys puts it first. */
  lemma RandomCanPickAny(s: Store, id: int)
    requires KeysMatch(s) && id in s.quizzes
    ensures exists guid :: Random(s, Some(1), guid).response.body == [s.quizzes[id]]
  {
    var guid := (k: int) => if k == id then 0 else 1;
    var le := ByGuid(guid);
    forall k | k in s.quizzes && le(s.quizzes[k], s.quizzes[id]) ensures s.quizzes[k] == s.quizzes[id] {
      assert s.quizzes[k].id == k && s.quizzes[id].id == id;
      assert guid(k) <= guid(id);
    }
    QueryPicksStrictlyFirst(s, le, id);
    assert Random(s, Some(1), guid).response.body == [s.quizzes[id]];
  }
}
