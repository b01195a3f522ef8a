/** The Answer API (`api/answer`): read, create, edit and delete one answer,
    and list the answers of a question. The request payload is the answer
    record itself; `None` is a payload that did not bind. */
module AnswerController {
  import opened Base
  import opened Entities
  import opened Database
  import opened Api

  const Label := "AnswerId"

  /** The delete action's 404 message spells the entity "Anser". */
  const DeleteLabel := "AnserId"

  /** GET api/answer/{id}. */
  function Get(s: Store, id: int): (o: Outcome<Answer>)
    ensures o.store == s
    ensures id in s.answers ==> o.response == Ok(s.answers[id])
    ensures id !in s.answers ==> o.response == NotFound(NotFoundError(Label, id))
  {
    if id in s.answers then Outcome(s, Ok(s.answers[id]))
    else Outcome(s, NotFound(NotFoundError(Label, id)))
  }

  /** PUT api/answer: inserts the payload as a new answer stamped `now`.
      The stored Notes are the payload's Text, not its Notes. */
  function Put(s: Store, model: Option<Answer>, now: int): (o: Outcome<Answer>)
    ensures model.None? ==> o == Outcome(s, ServerError)
    ensures o.response.Ok? <==> model.Some? && ValidAnswer(model.value) && model.value.questionId in s.questions
    ensures o.response.Ok? ==>
      var a := o.response.body;
      && a.questionId == model.value.questionId && a.text == model.value.text
      && a.notes == model.value.text && a.value == model.value.value
      && a.kind == model.value.kind && a.flags == model.value.flags
      && a.createdDate == now && a.lastModifiedDate == now
      && o.store == s.(answers := s.answers[a.id := a], next := s.next.(answer := s.next.answer + 1))
    ensures !o.response.Ok? ==> o.store == s
  {
    match model
    case None => Outcome(s, ServerError)
    case Some(m) =>
      var a := m.(notes := m.text, createdDate := now, lastModifiedDate := now);
      Commit(s, InsertAnswer(s, a))
  }

  /** POST api/answer: overwrites QuestionId, Text, Value and Notes of the
      stored answer `model.id` and stamps LastModifiedDate with `now`. */
  function Post(s: Store, model: Option<Answer>, now: int): (o: Outcome<Answer>)
    ensures model.None? ==> o == Outcome(s, ServerError)
    ensures model.Some? && model.value.id !in s.answers ==>
      o == Outcome(s, NotFound(NotFoundError(Label, model.value.id)))
    ensures o.response.Ok? <==>
      model.Some? && model.value.id in s.answers && ValidAnswer(model.value) && model.value.questionId in s.questions
    ensures o.response.Ok? ==>
      var m := model.value;
      var before := s.answers[m.id];
      var a := o.response.body;
      && a.questionId == m.questionId && a.text == m.text && a.value == m.value && a.notes == m.notes
      && a.lastModifiedDate == now
      && a.(questionId := before.questionId, text := before.text, value := before.value, notes := before.notes,
            lastModifiedDate := before.lastModifiedDate) == before
      && o.store == s.(answers := s.answers[m.id := a])
    ensures !o.response.Ok? ==> o.store == s
  {
    match model
    case None => Outcome(s, ServerError)
    case Some(m) =>
      if m.id !in s.answers then Outcome(s, NotFound(NotFoundError(Label, m.id)))
      else
        var a := s.answers[m.id].(questionId := m.questionId, text := m.text, value := m.value, notes := m.notes,
                                  lastModifiedDate := now);
        Commit(s, UpdateAnswer(s, m.id, a))
  }

  /** DELETE api/answer/{id}: removes exactly that answer. */
  function Delete(s: Store, id: int): (o: Outcome<()>)
    ensures id !in s.answers ==> o == Outcome(s, NotFound(NotFoundError(DeleteLabel, id)))
    ensures id in s.answers ==> o.response == OkEmpty && o.store.answers == s.answers - {id}
    ensures o.store.(answers := s.answers) == s
  {
    if id !in s.answers then Outcome(s, NotFound(NotFoundError(DeleteLabel, id)))
    else Outcome(RemoveAnswer(s, id), OkEmpty)
  }

  /** GET api/answer/All/{questionId}: the answers of the question, in key order. */
  function All(s: Store, questionId: int): (o: Outcome<seq<Answer>>)
    ensures o.store == s && o.response.Ok?
    ensures forall i :: 0 <= i < |o.response.body| ==> o.response.body[i].questionId == questionId
    ensures forall i :: 0 <= i < |o.response.body| ==> o.response.body[i] in s.answers.Values
    ensures forall k :: k in s.answers && s.answers[k].questionId == questionId ==> s.answers[k] in o.response.body
    ensures |o.response.body| == |AnswersOf(s, questionId)|
  {
    Outcome(s, Ok(Scan(s.answers, AnswersOf(s, questionId))))
  }

  /** A created answer can be read back under the id it was given. */
  lemma PutThenGet(s: Store, model: Option<Answer>, now: int)
    requires Consistent(s)
    ensures var o := Put(s, model, now);
      o.response.Ok? ==>
        && o.response.body.id !in s.answers
        && Get(o.store, o.response.body.id).response == Ok(o.response.body)
        && Consistent(o.store)
  {
    if model.Some? && Put(s, model, now).response.Ok? {
      var m := model.value;
      InsertAnswerPreservesConsistency(s, m.(notes := m.text, createdDate := now, lastModifiedDate := now));
    }
  }

  /** Posting the same payload again stores the same field values; only the
      modification stamp moves to the later time. */
  lemma PostTwice(s: Store, model: Option<Answer>, t1: int, t2: int)
    requires Post(s, model, t1).response.Ok?
    ensures var o1 := Post(s, model, t1);
      var o2 := Post(o1.store, model, t2);
      && o2.response.Ok?
      && o2.response.body == o1.response.body.(lastModifiedDate := t2)
  {
  }

  /** Editing or deleting keeps the store consistent. */
  lemma PostDeletePreserveConsistency(s: Store, model: Option<Answer>, now: int, id: int)
    requires Consistent(s)
    ensures Consistent(Post(s, model, now).store)
    ensures Consistent(Delete(s, id).store)
  {
    if model.Some? && Post(s, model, now).response.Ok? {
      var m := model.value;
      UpdateAnswerPreservesConsistency(s, m.id, s.answers[m.id].(questionId := m.questionId, text := m.text,
        value := m.value, notes := m.notes, lastModifiedDate := now));
    }
    RemoveLeafPreservesConsistency(s, id, 0);
  }

  /** A missing answer is reported under two different names: reading it
      says "AnswerId", deleting it says "AnserId". */
  lemma MissingAnswerMessagesDiffer(s: Store, id: int)
    requires id !in s.answers
    ensures Get(s, id).response.error != Delete(s, id).response.error
  {
    NotFoundErrorNamesEntity(Label, DeleteLabel, 3, id, id);
  }
}
