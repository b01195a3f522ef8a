/** The Question API (`api/question`): read, create, edit and delete one
    question, and list the questions of a quiz. The request payload is the
    question record itself (view-model mapping is field-for-field); `None` is
    a payload that did not bind. */
module QuestionController {
  import opened Base
  import opened Entities
  import opened Database
  import opened Api

  const Label := "QuestionId"

  /** GET api/question/{id}. */
  function Get(s: Store, id: int): (o: Outcome<Question>)
    ensures o.store == s
    ensures id in s.questions ==> o.response == Ok(s.questions[id])
    ensures id !in s.questions ==> o.response == NotFound(NotFoundError(Label, id))
  {
    if id in s.questions then Outcome(s, Ok(s.questions[id]))
    else Outcome(s, NotFound(NotFoundError(Label, id)))
  }

  /** PUT api/question: inserts the payload as a new question stamped
      `now`, with an id the store assigns. */
  function Put(s: Store, model: Option<Question>, now: int): (o: Outcome<Question>)
    ensures model.None? ==> o == Outcome(s, ServerError)
    ensures o.response.Ok? <==> model.Some? && ValidQuestion(model.value) && model.value.quizId in s.quizzes
    ensures o.response.Ok? ==>
      var q := o.response.body;
      && q.quizId == model.value.quizId && q.text == model.value.text && q.notes == model.value.notes
      && q.kind == model.value.kind && q.flags == model.value.flags
      && q.createdDate == now && q.lastModifiedDate == now
      && o.store == s.(questions := s.questions[q.id := q], next := s.next.(question := s.next.question + 1))
    ensures !o.response.Ok? ==> o.store == s
  {
    match model
    case None => Outcome(s, ServerError)
    case Some(m) =>
      var q := m.(createdDate := now, lastModifiedDate := now);
      Commit(s, InsertQuestion(s, q))
  }

  /** POST api/question: overwrites QuizId, Text and Notes of the stored
      question `model.id` and stamps LastModifiedDate with `now`. */
  function Post(s: Store, model: Option<Question>, now: int): (o: Outcome<Question>)
    ensures model.None? ==> o == Outcome(s, ServerError)
    ensures model.Some? && model.value.id !in s.questions ==>
      o == Outcome(s, NotFound(NotFoundError(Label, model.value.id)))
    ensures o.response.Ok? <==>
      model.Some? && model.value.id in s.questions && ValidQuestion(model.value) && model.value.quizId in s.quizzes
    ensures o.response.Ok? ==>
      var m := model.value;
      var before := s.questions[m.id];
      var q := o.response.body;
      && q.quizId == m.quizId && q.text == m.text && q.notes == m.notes && q.lastModifiedDate == now
      && q.(quizId := before.quizId, text := before.text, notes := before.notes, lastModifiedDate := before.lastModifiedDate) == before
      && o.store == s.(questions := s.questions[m.id := q])
    ensures !o.response.Ok? ==> o.store == s
  {
    match model
    case None => Outcome(s, ServerError)
    case Some(m) =>
      if m.id !in s.questions then Outcome(s, NotFound(NotFoundError(Label, m.id)))
      else
        var q := s.questions[m.id].(quizId := m.quizId, text := m.text, notes := m.notes, lastModifiedDate := now);
        Commit(s, UpdateQuestion(s, m.id, q))
  }

  /** DELETE api/question/{id}: removes the question and, by cascade, its answers. */
  function Delete(s: Store, id: int): (o: Outcome<()>)
    ensures id !in s.questions ==> o == Outcome(s, NotFound(NotFoundError(Label, id)))
    ensures id in s.questions ==> o.response == OkEmpty
    ensures id in s.questions ==> o.store.questions.Keys == s.questions.Keys - {id}
    ensures id in s.questions ==>
      forall k :: k in o.store.answers <==> k in s.answers && s.answers[k].questionId != id
    ensures forall k :: k in o.store.questions ==> o.store.questions[k] == s.questions[k]
    ensures forall k :: k in o.store.answers ==> o.store.answers[k] == s.answers[k]
    ensures o.store.(questions := s.questions, answers := s.answers) == s
  {
    if id !in s.questions then Outcome(s, NotFound(NotFoundError(Label, id)))
    else Outcome(RemoveQuestion(s, id), OkEmpty)
  }

  /** GET api/question/All/{quizId}: the questions of the quiz, in key order. */
  function All(s: Store, quizId: int): (o: Outcome<seq<Question>>)
    ensures o.store == s && o.response.Ok?
    ensures forall i :: 0 <= i < |o.response.body| ==> o.response.body[i].quizId == quizId
    ensures forall i :: 0 <= i < |o.response.body| ==> o.response.body[i] in s.questions.Values
    ensures forall k :: k in s.questions && s.questions[k].quizId == quizId ==> s.questions[k] in o.response.body
    ensures |o.response.body| == |QuestionsOf(s, {quizId})|
  {
    Outcome(s, Ok(Scan(s.questions, QuestionsOf(s, {quizId}))))
  }

  /** A created question can be read back under the id it was given. */
  lemma PutThenGet(s: Store, model: Option<Question>, now: int)
    requires Consistent(s)
    ensures var o := Put(s, model, now);
      o.response.Ok? ==>
        && o.response.body.id !in s.questions
        && Get(o.store, o.response.body.id).response == Ok(o.response.body)
        && Consistent(o.store)
  {
    if model.Some? && Put(s, model, now).response.Ok? {
      InsertQuestionPreservesConsistency(s, model.value.(createdDate := now, lastModifiedDate := now));
    }
  }

  /** Posting the same payload again stores the same field values; only the
      modification stamp moves to the later time. */
  lemma PostTwice(s: Store, model: Option<Question>, t1: int, t2: int)
    requires Post(s, model, t1).response.Ok?
    ensures var o1 := Post(s, model, t1);
      var o2 := Post(o1.store, model, t2);
      && o2.response.Ok?
      && o2.response.body == o1.response.body.(lastModifiedDate := t2)
  {
  }

  /** Editing or deleting keeps the store consistent. */
  lemma PostDeletePreserveConsistency(s: Store, model: Option<Question>, now: int, id: int)
    requires Consistent(s)
    ensures Consistent(Post(s, model, now).store)
    ensures Consistent(Delete(s, id).store)
  {
    if model.Some? && Post(s, model, now).response.Ok? {
      var m := model.value;
      UpdateQuestionPreservesConsistency(s, m.id, s.questions[m.id].(quizId := m.quizId, text := m.text, notes := m.notes, lastModifiedDate := now));
    }
    RemoveQuestionPreservesConsistency(s, id);
  }

  /** After a delete the question reads as not found, and so does each of
      its former answers. */
  lemma DeleteThenGet(s: Store, id: int)
    requires id in s.questions
    ensures var o := Delete(s, id);
      && Get(o.store, id).response == NotFound(NotFoundError(Label, id))
      && forall a :: a in AnswersOf(s, id) ==> a !in o.store.answers
  {
  }
}
