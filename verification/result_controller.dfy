/** The Result API (`api/result`): read, create, edit and delete one result,
    and list the results of a quiz. The request payload is the result record
    itself; `None` is a payload that did not bind. */
module ResultController {
  import opened Base
  import opened Entities
  import opened Database
  import opened Api

  const Label := "ResultId"

  /** GET api/result/{id}. */
  function Get(s: Store, id: int): (o: Outcome<Result>)
    ensures o.store == s
    ensures id in s.results ==> o.response == Ok(s.results[id])
    ensures id !in s.results ==> o.response == NotFound(NotFoundError(Label, id))
  {
    if id in s.results then Outcome(s, Ok(s.results[id]))
    else Outcome(s, NotFound(NotFoundError(Label, id)))
  }

  /** PUT api/result: inserts the payload, every field as sent, stamped `now`. */
  function Put(s: Store, model: Option<Result>, now: int): (o: Outcome<Result>)
    ensures model.None? ==> o == Outcome(s, ServerError)
    ensures o.response.Ok? <==> model.Some? && ValidResult(model.value) && model.value.quizId in s.quizzes
    ensures o.response.Ok? ==>
      var r := o.response.body;
      && r == model.value.(id := r.id, createdDate := now, lastModifiedDate := now)
      && o.store == s.(results := s.results[r.id := r], next := s.next.(result := s.next.result + 1))
    ensures !o.response.Ok? ==> o.store == s
  {
    match model
    case None => Outcome(s, ServerError)
    case Some(m) =>
      var r := m.(createdDate := now, lastModifiedDate := now);
      Commit(s, InsertResult(s, r))
  }

  /** POST api/result: overwrites QuizId, Text, MinValue, MaxValue and Notes
      of the stored result `model.id`, and sets LastModifiedDate back to the
      row's CreatedDate; the clock is not read. Nothing relates MinValue to
      MaxValue. */
  function Post(s: Store, model: Option<Result>): (o: Outcome<Result>)
    ensures model.None? ==> o == Outcome(s, ServerError)
    ensures model.Some? && model.value.id !in s.results ==>
      o == Outcome(s, NotFound(NotFoundError(Label, model.value.id)))
    ensures o.response.Ok? <==>
      model.Some? && model.value.id in s.results && ValidResult(model.value) && model.value.quizId in s.quizzes
    ensures o.response.Ok? ==>
      var m := model.value;
      var before := s.results[m.id];
      var r := o.response.body;
      && r.quizId == m.quizId && r.text == m.text && r.minValue == m.minValue && r.maxValue == m.maxValue
      && r.notes == m.notes
      && r.lastModifiedDate == before.createdDate
      && r.(quizId := before.quizId, text := before.text, minValue := before.minValue, maxValue := before.maxValue,
            notes := before.notes, lastModifiedDate := before.lastModifiedDate) == before
      && o.store == s.(results := s.results[m.id := r])
    ensures !o.response.Ok? ==> o.store == s
  {
    match model
    case None => Outcome(s, ServerError)
    case Some(m) =>
      if m.id !in s.results then Outcome(s, NotFound(NotFoundError(Label, m.id)))
      else
        var before := s.results[m.id];
        var r := before.(quizId := m.quizId, text := m.text, minValue := m.minValue, maxValue := m.maxValue,
                         notes := m.notes, lastModifiedDate := before.createdDate);
        Commit(s, UpdateResult(s, m.id, r))
  }

  /** DELETE api/result/{id}: removes exactly that result. */
  function Delete(s: Store, id: int): (o: Outcome<()>)
    ensures id !in s.results ==> o == Outcome(s, NotFound(NotFoundError(Label, id)))
    ensures id in s.results ==> o.response == OkEmpty && o.store.results == s.results - {id}
    ensures o.store.(results := s.results) == s
  {
    if id !in s.results then Outcome(s, NotFound(NotFoundError(Label, id)))
    else Outcome(RemoveResult(s, id), OkEmpty)
  }

  /** GET api/result/All/{quizId}: the results of the quiz, in key order. */
  function All(s: Store, quizId: int): (o: Outcome<seq<Result>>)
    ensures o.store == s && o.response.Ok?
    ensures forall i :: 0 <= i < |o.response.body| ==> o.response.body[i].quizId == quizId
    ensures forall i :: 0 <= i < |o.response.body| ==> o.response.body[i] in s.results.Values
    ensures forall k :: k in s.results && s.results[k].quizId == quizId ==> s.results[k] in o.response.body
    ensures |o.response.body| == |ResultsOf(s, quizId)|
  {
    Outcome(s, Ok(Scan(s.results, ResultsOf(s, quizId))))
  }

  /** A created result can be read back under the id it was given. */
  lemma PutThenGet(s: Store, model: Option<Result>, now: int)
    requires Consistent(s)
    ensures var o := Put(s, model, now);
      o.response.Ok? ==>
        && o.response.body.id !in s.results
        && Get(o.store, o.response.body.id).response == Ok(o.response.body)
        && Consistent(o.store)
  {
    if model.Some? && Put(s, model, now).response.Ok? {
      InsertResultPreservesConsistency(s, model.value.(createdDate := now, lastModifiedDate := now));
    }
  }

  /** Editing a result is idempotent, timestamps included, since the edit
      does not read the clock. */
  lemma PostIdempotent(s: Store, model: Option<Result>)
    requires Post(s, model).response.Ok?
    ensures var o1 := Post(s, model);
      Post(o1.store, model) == o1
  {
    var o1 := Post(s, model);
    var m := model.value;
    assert o1.store.results[m.id := o1.response.body] == o1.store.results;
  }

  /** However long after its creation a result is edited, the edit leaves
      it looking unmodified since creation. */
  lemma PostAfterPutLooksUnmodified(s: Store, model: Option<Result>, created: int, edit: Option<Result>)
    requires Consistent(s)
    requires Put(s, model, created).response.Ok?
    requires edit.Some? && edit.value.id == Put(s, model, created).response.body.id
    ensures var o := Post(Put(s, model, created).store, edit);
      o.response.Ok? ==> o.response.body.createdDate == created && o.response.body.lastModifiedDate == created
  {
  }

  /** Editing or deleting keeps the store consistent. */
  lemma PostDeletePreserveConsistency(s: Store, model: Option<Result>, id: int)
    requires Consistent(s)
    ensures Consistent(Post(s, model).store)
    ensures Consistent(Delete(s, id).store)
  {
    if model.Some? && Post(s, model).response.Ok? {
      var m := model.value;
      var before := s.results[m.id];
      UpdateResultPreservesConsistency(s, m.id, before.(quizId := m.quizId, text := m.text, minValue := m.minValue,
        maxValue := m.maxValue, notes := m.notes, lastModifiedDate := before.createdDate));
    }
    RemoveLeafPreservesConsistency(s, 0, id);
  }
}
