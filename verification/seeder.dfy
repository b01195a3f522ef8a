/** The database seeder: fills an empty store with an administrator, a few
    sample accounts and sample quizzes. The clock readings (`now`; each
    step reads the clock on its own), the GUIDs of new accounts and the
    DEBUG build flag are parameters. Every row is written
    through the checked inserts, so the seeded store is consistent. */
module DbSeeder {
  import opened Base
  import opened Order
  import opened Entities
  import opened Database

  const Day := 86400

  /** 2016-03-01 12:30:00, in seconds since 0001-01-01 00:00:00. */
  const SeedDate := 736023 * Day + 45000

  /** How many generated quizzes a DEBUG build adds. */
  const SampleQuizCount := 47

  /** The texts of the generated rows. Long texts are written as
      concatenations of short literals, which the verifier unfolds more
      cheaply than one long literal. */
  const SampleQuizText :=
    "This is a sample " + "quiz created by the " + "DbSeeder class for " + "testing purposes. " +
    "All the questions, " + "answers and results " + "are auto-generated " + "as well"
  const SampleQuestionText :=
    "This is a sample " + "question created by " + "the dbSeeder class " + "for testing " +
    "purposes.All the " + "child answers are " + "auto-generated as " + "well."
  const SampleAnswerText :=
    "This is a sample " + "answer created by " + "the DbSeeder class " + "for testing purposes"
  const SampleResultText :=
    "This is a sample " + "result created by " + "the DbSeeder class " + "for testing " + "purposes."

  /** How many times `for (k = i; k < n; k++)` runs. */
  function Count(i: int, n: int): nat {
    if i < n then n - i else 0
  }

  /** The integers `lo`, ..., `hi - 1`. */
  function Range(lo: int, hi: int): (r: set<int>)
    ensures forall k :: k in r <==> lo <= k < hi
    ensures |r| == Count(lo, hi)
    decreases hi - lo
  {
    if lo >= hi then {} else Range(lo, hi - 1) + {hi - 1}
  }

  // ---------------------------------------------------------------------
  // The rows of a generated quiz

  function SampleTitle(num: int): string {
    "Quiz " + IntToString(num) + " Title"
  }

  function SampleQuiz(num: int, authorId: string, viewCount: int, date: int): Quiz {
    Quiz(0, Some(authorId), Some(SampleTitle(num)),
         Some("This is a sample description quiz " + IntToString(num)), Some(SampleQuizText), None,
         0, 0, viewCount, date, date)
  }

  function SampleQuestion(quizId: int, date: int): Question {
    Question(0, quizId, Some(SampleQuestionText), None, 0, 0, date, date)
  }

  function SampleAnswer(questionId: int, value: int, date: int): Answer {
    Answer(0, questionId, Some(SampleAnswerText), value, None, 0, 0, date, date)
  }

  /** MaxValue is the number of answers per question times two. */
  function SampleResult(quizId: int, answersPerQuestion: int, date: int): Result {
    Result(0, quizId, Some(SampleResultText), Some(0), Some(answersPerQuestion * 2), None, 0, 0, date, date)
  }

  /** The answer values of question `q`. */
  function AnswerValues(s: Store, q: int): set<int> {
    set k | k in s.answers && s.answers[k].questionId == q :: s.answers[k].value
  }

  /** Question `q` has exactly `n` answers (none when `n` is negative), one
      for each value 0, ..., n - 1, all generated on `date`. */
  ghost predicate HasSampleAnswers(s: Store, q: int, n: int, date: int) {
    && |AnswersOf(s, q)| == Count(0, n)
    && AnswerValues(s, q) == Range(0, n)
    && forall k :: k in AnswersOf(s, q) ==> s.answers[k] == SampleAnswer(q, s.answers[k].value, date).(id := k)
  }


  // ---------------------------------------------------------------------
  // Generators, one loop each. Their contracts only say what they leave
  // alone; the rows they add are described by the lemmas that follow.

  /** Answers `j`, ..., `n - 1` of question `questionId`: answer `j` has Value `j`. */
  function SampleAnswers(s: Store, questionId: int, j: int, n: int, date: int): (r: Store)
    requires questionId in s.questions
    ensures r == s.(answers := r.answers, next := s.next.(answer := s.next.answer + Count(j, n)))
    decreases n - j
  {
    if j >= n then s
    else
      var a := SampleAnswer(questionId, j, date);
      SampleAnswers(InsertAnswer(s, a).store, questionId, j + 1, n, date)
  }

  /** Questions `i`, ..., `n - 1` of quiz `quizId`, each followed by its
      `answersPerQuestion` answers. */
  function SampleQuestions(s: Store, quizId: int, i: int, n: int, answersPerQuestion: int, date: int): (r: Store)
    requires quizId in s.quizzes
    ensures r == s.(questions := r.questions, answers := r.answers,
                    next := s.next.(question := s.next.question + Count(i, n), answer := r.next.answer))
    ensures r.next.answer >= s.next.answer
    decreases n - i
  {
    if i >= n then s
    else
      var q := SampleQuestion(quizId, date);
      var s1 := InsertQuestion(s, q).store;
      var s2 := SampleAnswers(s1, s.next.question, 0, answersPerQuestion, date);
      SampleQuestions(s2, quizId, i + 1, n, answersPerQuestion, date)
  }

  /** Results `i`, ..., `n - 1` of quiz `quizId`. */
  function SampleResults(s: Store, quizId: int, i: int, n: int, answersPerQuestion: int, date: int): (r: Store)
    requires quizId in s.quizzes
    ensures r == s.(results := r.results, next := s.next.(result := s.next.result + Count(i, n)))
    decreases n - i
  {
    if i >= n then s
    else
      var res := SampleResult(quizId, answersPerQuestion, date);
      SampleResults(InsertResult(s, res).store, quizId, i + 1, n, answersPerQuestion, date)
  }

  // ---------------------------------------------------------------------
  // What the generators add

  /** The answers generated take the next identities, keep the old answers,
      and answer `k` of the run has Value `j + (k - s.next.answer)`. */
  lemma {:induction false} SampleAnswersRows(s: Store, questionId: int, j: int, n: int, date: int)
    requires KeysBelowIdentity(s) && questionId in s.questions
    ensures var r := SampleAnswers(s, questionId, j, n, date);
      && KeysBelowIdentity(r)
      && (forall k :: k in r.answers <==> k in s.answers || s.next.answer <= k < r.next.answer)
      && (forall k :: k in s.answers ==> r.answers[k] == s.answers[k])
      && (forall k :: s.next.answer <= k < r.next.answer ==>
            r.answers[k] == SampleAnswer(questionId, j + (k - s.next.answer), date).(id := k))
    decreases n - j
  {
    if j < n {
      var s1 := InsertAnswer(s, SampleAnswer(questionId, j, date)).store;
      SampleAnswersRows(s1, questionId, j + 1, n, date);
      assert SampleAnswers(s, questionId, j, n, date) == SampleAnswers(s1, questionId, j + 1, n, date);
    }
  }

  /** The questions generated take the next identities. */
  lemma {:induction false} SampleQuestionsRows(s: Store, quizId: int, i: int, n: int, answersPerQuestion: int, date: int)
    requires KeysBelowIdentity(s) && quizId in s.quizzes
    ensures var r := SampleQuestions(s, quizId, i, n, answersPerQuestion, date);
      && KeysBelowIdentity(r)
      && (forall k :: k in r.questions <==> k in s.questions || s.next.question <= k < r.next.question)
    decreases n - i
  {
    if i < n {
      var q0 := s.next.question;
      var s1 := InsertQuestion(s, SampleQuestion(quizId, date)).store;
      SampleAnswersRows(s1, q0, 0, answersPerQuestion, date);
      var s2 := SampleAnswers(s1, q0, 0, answersPerQuestion, date);
      SampleQuestionsRows(s2, quizId, i + 1, n, answersPerQuestion, date);
      assert SampleQuestions(s, quizId, i, n, answersPerQuestion, date)
          == SampleQuestions(s2, quizId, i + 1, n, answersPerQuestion, date);
    }
  }

  /** Generating questions keeps the old questions, and every question it
      adds is a generated question of quiz `quizId`. */
  lemma {:induction false} SampleQuestionsContents(s: Store, quizId: int, i: int, n: int, answersPerQuestion: int, date: int)
    requires KeysBelowIdentity(s) && quizId in s.quizzes
    ensures var r := SampleQuestions(s, quizId, i, n, answersPerQuestion, date);
      && (forall k :: k in s.questions ==> k in r.questions && r.questions[k] == s.questions[k])
      && (forall k :: s.next.question <= k < r.next.question ==>
            k in r.questions && r.questions[k] == SampleQuestion(quizId, date).(id := k))
    decreases n - i
  {
    if i < n {
      var q0 := s.next.question;
      var s1 := InsertQuestion(s, SampleQuestion(quizId, date)).store;
      SampleAnswersRows(s1, q0, 0, answersPerQuestion, date);
      var s2 := SampleAnswers(s1, q0, 0, answersPerQuestion, date);
      SampleQuestionsContents(s2, quizId, i + 1, n, answersPerQuestion, date);
      assert SampleQuestions(s, quizId, i, n, answersPerQuestion, date)
          == SampleQuestions(s2, quizId, i + 1, n, answersPerQuestion, date);
    }
  }

  /** Generating the answers of one question keeps the old answers, and
      every answer it adds belongs to that question. */
  lemma SampleAnswersFrame(s: Store, questionId: int, j: int, n: int, date: int)
    requires KeysBelowIdentity(s) && questionId in s.questions
    ensures var r := SampleAnswers(s, questionId, j, n, date);
      && KeysBelowIdentity(r)
      && (forall k :: k in s.answers ==> k in r.answers && r.answers[k] == s.answers[k])
      && (forall k :: k in r.answers && k !in s.answers ==> r.answers[k].questionId == questionId)
  {
    SampleAnswersRows(s, questionId, j, n, date);
  }

  /** Answers added first for question `q`, then for questions from `q + 1`
      below `hi`, are answers added for questions from `q` below `hi`. */
  lemma AnswersChain(s: Store, s2: Store, r: Store, q: int, hi: int)
    requires forall k :: k in s.answers ==> k in s2.answers && s2.answers[k] == s.answers[k]
    requires forall k :: k in s2.answers && k !in s.answers ==> s2.answers[k].questionId == q
    requires forall k :: k in s2.answers ==> k in r.answers && r.answers[k] == s2.answers[k]
    requires forall k :: k in r.answers && k !in s2.answers ==> q + 1 <= r.answers[k].questionId < hi
    requires q < hi
    ensures forall k :: k in s.answers ==> k in r.answers && r.answers[k] == s.answers[k]
    ensures forall k :: k in r.answers && k !in s.answers ==> q <= r.answers[k].questionId < hi
  {
  }

  /** Generating questions keeps the old answers, and every answer it adds
      belongs to one of the new questions. */
  lemma {:induction false} SampleQuestionsAnswers(s: Store, quizId: int, i: int, n: int, answersPerQuestion: int, date: int)
    requires KeysBelowIdentity(s) && quizId in s.quizzes
    ensures var r := SampleQuestions(s, quizId, i, n, answersPerQuestion, date);
      && (forall k :: k in s.answers ==> k in r.answers && r.answers[k] == s.answers[k])
      && (forall k :: k in r.answers && k !in s.answers ==>
            s.next.question <= r.answers[k].questionId < r.next.question)
    decreases n - i
  {
    if i < n {
      var q0 := s.next.question;
      var s1 := InsertQuestion(s, SampleQuestion(quizId, date)).store;
      SampleAnswersFrame(s1, q0, 0, answersPerQuestion, date);
      var s2 := SampleAnswers(s1, q0, 0, answersPerQuestion, date);
      SampleQuestionsAnswers(s2, quizId, i + 1, n, answersPerQuestion, date);
      var r := SampleQuestions(s2, quizId, i + 1, n, answersPerQuestion, date);
      assert SampleQuestions(s, quizId, i, n, answersPerQuestion, date) == r;
      AnswersChain(s, s2, r, q0, r.next.question);
    }
  }

  /** The results generated take the next identities and keep the old results. */
  lemma {:induction false} SampleResultsRows(s: Store, quizId: int, i: int, n: int, answersPerQuestion: int, date: int)
    requires KeysBelowIdentity(s) && quizId in s.quizzes
    ensures var r := SampleResults(s, quizId, i, n, answersPerQuestion, date);
      && KeysBelowIdentity(r)
      && (forall k :: k in r.results <==> k in s.results || s.next.result <= k < r.next.result)
      && (forall k :: k in s.results ==> r.results[k] == s.results[k])
      && (forall k :: s.next.result <= k < r.next.result ==>
            r.results[k] == SampleResult(quizId, answersPerQuestion, date).(id := k))
    decreases n - i
  {
    if i < n {
      var s1 := InsertResult(s, SampleResult(quizId, answersPerQuestion, date)).store;
      SampleResultsRows(s1, quizId, i + 1, n, answersPerQuestion, date);
      assert SampleResults(s, quizId, i, n, answersPerQuestion, date)
          == SampleResults(s1, quizId, i + 1, n, answersPerQuestion, date);
    }
  }

  /** Generated answers hang below an existing question, so the store stays consistent. */
  lemma {:induction false} SampleAnswersPreserveConsistency(s: Store, questionId: int, j: int, n: int, date: int)
    requires Consistent(s) && questionId in s.questions
    ensures Consistent(SampleAnswers(s, questionId, j, n, date))
    decreases n - j
  {
    if j < n {
      var a := SampleAnswer(questionId, j, date);
      InsertAnswerPreservesConsistency(s, a);
      var s1 := InsertAnswer(s, a).store;
      SampleAnswersPreserveConsistency(s1, questionId, j + 1, n, date);
      assert SampleAnswers(s, questionId, j, n, date) == SampleAnswers(s1, questionId, j + 1, n, date);
    }
  }

  /** Rows added after `s` leave the answers of question `q` alone when
      none of them belongs to `q`. */
  lemma AnswersFrame(s: Store, r: Store, q: int, n: int, date: int)
    requires forall k :: k in s.answers ==> k in r.answers && r.answers[k] == s.answers[k]
    requires forall k :: k in r.answers && k !in s.answers ==> r.answers[k].questionId != q
    ensures AnswersOf(r, q) == AnswersOf(s, q)
    ensures AnswerValues(r, q) == AnswerValues(s, q)
    ensures HasSampleAnswers(s, q, n, date) ==> HasSampleAnswers(r, q, n, date)
  {
    forall k ensures k in AnswersOf(r, q) <==> k in AnswersOf(s, q) {
      if k in r.answers && k !in s.answers {
        assert r.answers[k].questionId != q;
      }
    }
    assert AnswersOf(r, q) == AnswersOf(s, q);
    forall v ensures v in AnswerValues(r, q) <==> v in AnswerValues(s, q) {
      if v in AnswerValues(r, q) {
        var k :| k in r.answers && r.answers[k].questionId == q && r.answers[k].value == v;
        assert k in AnswersOf(s, q);
      }
      if v in AnswerValues(s, q) {
        var k :| k in s.answers && s.answers[k].questionId == q && s.answers[k].value == v;
        assert k in AnswersOf(r, q);
      }
    }
  }

  /** Answers stored under `lo`, ..., `lo + n - 1` with values 0, ..., n - 1
      are answers valued exactly 0, ..., n - 1. */
  ghost predicate ConsecutiveAnswers(r: Store, q: int, lo: int, n: int, date: int) {
    && AnswersOf(r, q) == Range(lo, lo + Count(0, n))
    && forall k :: k in AnswersOf(r, q) ==> r.answers[k] == SampleAnswer(q, k - lo, date).(id := k)
  }

  /** The rows generated for a question that had no answers are all of
      its answers. */
  lemma FreshAnswerKeys(s: Store, r: Store, q: int, n: int, date: int)
    requires forall k :: k in s.answers ==> s.answers[k].questionId != q
    requires forall k :: k in r.answers <==> k in s.answers || s.next.answer <= k < r.next.answer
    requires forall k :: k in s.answers ==> r.answers[k] == s.answers[k]
    requires forall k :: s.next.answer <= k < r.next.answer ==>
      r.answers[k] == SampleAnswer(q, 0 + (k - s.next.answer), date).(id := k)
    ensures AnswersOf(r, q) == Range(s.next.answer, r.next.answer)
  {
    forall k ensures k in AnswersOf(r, q) <==> k in Range(s.next.answer, r.next.answer) {
      if s.next.answer <= k < r.next.answer {
        assert r.answers[k].questionId == q;
      }
    }
  }

  /** Answers stored under consecutive new ids with values counting from 0
      are consecutive answers. */
  lemma FreshAnswersFrom(r: Store, q: int, lo: int, n: int, date: int)
    requires r.next.answer == lo + Count(0, n)
    requires AnswersOf(r, q) == Range(lo, r.next.answer)
    requires forall k :: lo <= k < r.next.answer ==> k in r.answers
    requires forall k :: lo <= k < r.next.answer ==> r.answers[k] == SampleAnswer(q, 0 + (k - lo), date).(id := k)
    ensures ConsecutiveAnswers(r, q, lo, n, date)
  {
    forall k | k in AnswersOf(r, q) ensures r.answers[k] == SampleAnswer(q, k - lo, date).(id := k) {
      assert lo <= k < r.next.answer;
    }
  }

  /** The rows generated for a question that had no answers make
      consecutive answers from the first new id. */
  lemma FreshAnswers(s: Store, r: Store, q: int, n: int, date: int)
    requires forall k :: k in s.answers ==> s.answers[k].questionId != q
    requires r.next.answer == s.next.answer + Count(0, n)
    requires forall k :: k in r.answers <==> k in s.answers || s.next.answer <= k < r.next.answer
    requires forall k :: k in s.answers ==> r.answers[k] == s.answers[k]
    requires forall k :: s.next.answer <= k < r.next.answer ==>
      r.answers[k] == SampleAnswer(q, 0 + (k - s.next.answer), date).(id := k)
    ensures ConsecutiveAnswers(r, q, s.next.answer, n, date)
  {
    FreshAnswerKeys(s, r, q, n, date);
    FreshAnswersFrom(r, q, s.next.answer, n, date);
  }

  /** The answers of a question that had none, after the generated ones
      are added, are exactly the answers just generated. */
  lemma FreshQuestionAnswers(s: Store, q: int, n: int, date: int)
    requires KeysBelowIdentity(s) && q in s.questions
    requires forall k :: k in s.answers ==> s.answers[k].questionId != q
    ensures ConsecutiveAnswers(SampleAnswers(s, q, 0, n, date), q, s.next.answer, n, date)
  {
    SampleAnswersRows(s, q, 0, n, date);
    FreshAnswers(s, SampleAnswers(s, q, 0, n, date), q, n, date);
  }

  lemma ConsecutiveAnswerValuesWithin(r: Store, q: int, lo: int, n: int, date: int)
    requires ConsecutiveAnswers(r, q, lo, n, date)
    ensures AnswerValues(r, q) <= Range(0, n)
  {
    forall v | v in AnswerValues(r, q) ensures v in Range(0, n) {
      var k :| k in r.answers && r.answers[k].questionId == q && r.answers[k].value == v;
      assert k in AnswersOf(r, q);
    }
  }

  lemma ConsecutiveAnswerValuesCover(r: Store, q: int, lo: int, n: int, date: int)
    requires ConsecutiveAnswers(r, q, lo, n, date)
    ensures Range(0, n) <= AnswerValues(r, q)
  {
    forall v | v in Range(0, n) ensures v in AnswerValues(r, q) {
      var k := lo + v;
      assert k in Range(lo, lo + Count(0, n));
      assert r.answers[k] == SampleAnswer(q, v, date).(id := k);
    }
  }

  lemma ConsecutiveAnswerValues(r: Store, q: int, lo: int, n: int, date: int)
    requires ConsecutiveAnswers(r, q, lo, n, date)
    ensures HasSampleAnswers(r, q, n, date)
  {
    ConsecutiveAnswerValuesWithin(r, q, lo, n, date);
    ConsecutiveAnswerValuesCover(r, q, lo, n, date);
  }

  /** A question without answers that gets the generated ones ends up with
      answers valued 0, ..., n - 1. */
  lemma FreshQuestionGetsSampleAnswers(s: Store, q: int, n: int, date: int)
    requires KeysBelowIdentity(s) && q in s.questions
    requires forall k :: k in s.answers ==> s.answers[k].questionId != q
    ensures HasSampleAnswers(SampleAnswers(s, q, 0, n, date), q, n, date)
  {
    FreshQuestionAnswers(s, q, n, date);
    ConsecutiveAnswerValues(SampleAnswers(s, q, 0, n, date), q, s.next.answer, n, date);
  }

  /** Generated questions hang below an existing quiz, so the store stays consistent. */
  lemma {:induction false} SampleQuestionsPreserveConsistency(s: Store, quizId: int, i: int, n: int, answersPerQuestion: int, date: int)
    requires Consistent(s) && quizId in s.quizzes
    ensures Consistent(SampleQuestions(s, quizId, i, n, answersPerQuestion, date))
    decreases n - i
  {
    if i < n {
      var q := SampleQuestion(quizId, date);
      InsertQuestionPreservesConsistency(s, q);
      var s1 := InsertQuestion(s, q).store;
      SampleAnswersPreserveConsistency(s1, s.next.question, 0, answersPerQuestion, date);
      var s2 := SampleAnswers(s1, s.next.question, 0, answersPerQuestion, date);
      SampleQuestionsPreserveConsistency(s2, quizId, i + 1, n, answersPerQuestion, date);
    }
  }

  /** The first question generated gets its full set of generated answers,
      and the questions generated after it leave them alone. */
  lemma FirstSampleQuestionHasSampleAnswers(s: Store, quizId: int, i: int, n: int, answersPerQuestion: int, date: int)
    requires KeysBelowIdentity(s) && quizId in s.quizzes && i < n
    requires forall k :: k in s.answers ==> s.answers[k].questionId < s.next.question
    ensures HasSampleAnswers(SampleQuestions(s, quizId, i, n, answersPerQuestion, date), s.next.question,
                             answersPerQuestion, date)
  {
    var r := SampleQuestions(s, quizId, i, n, answersPerQuestion, date);
    var q0 := s.next.question;
    var s1 := InsertQuestion(s, SampleQuestion(quizId, date)).store;
    SampleAnswersRows(s1, q0, 0, answersPerQuestion, date);
    var s2 := SampleAnswers(s1, q0, 0, answersPerQuestion, date);
    assert r == SampleQuestions(s2, quizId, i + 1, n, answersPerQuestion, date);
    FreshQuestionGetsSampleAnswers(s1, q0, answersPerQuestion, date);
    SampleQuestionsAnswers(s2, quizId, i + 1, n, answersPerQuestion, date);
    AnswersFrame(s2, r, q0, answersPerQuestion, date);
  }

  /** Every generated question gets its own full set of generated answers. */
  lemma {:induction false} SampleQuestionHasSampleAnswers(s: Store, quizId: int, i: int, n: int, answersPerQuestion: int,
                                                          date: int, q: int)
    requires KeysBelowIdentity(s) && quizId in s.quizzes
    requires forall k :: k in s.answers ==> s.answers[k].questionId < s.next.question
    requires i < n && s.next.question <= q < s.next.question + (n - i)
    ensures HasSampleAnswers(SampleQuestions(s, quizId, i, n, answersPerQuestion, date), q, answersPerQuestion, date)
    decreases n - i
  {
    if q == s.next.question {
      FirstSampleQuestionHasSampleAnswers(s, quizId, i, n, answersPerQuestion, date);
    } else {
      var q0 := s.next.question;
      var s1 := InsertQuestion(s, SampleQuestion(quizId, date)).store;
      SampleAnswersRows(s1, q0, 0, answersPerQuestion, date);
      var s2 := SampleAnswers(s1, q0, 0, answersPerQuestion, date);
      assert SampleQuestions(s, quizId, i, n, answersPerQuestion, date)
          == SampleQuestions(s2, quizId, i + 1, n, answersPerQuestion, date);
      SampleQuestionHasSampleAnswers(s2, quizId, i + 1, n, answersPerQuestion, date, q);
    }
  }

  /** Generated results hang below an existing quiz, so the store stays consistent. */
  lemma {:induction false} SampleResultsPreserveConsistency(s: Store, quizId: int, i: int, n: int, answersPerQuestion: int, date: int)
    requires Consistent(s) && quizId in s.quizzes
    ensures Consistent(SampleResults(s, quizId, i, n, answersPerQuestion, date))
    decreases n - i
  {
    if i < n {
      var res := SampleResult(quizId, answersPerQuestion, date);
      InsertResultPreservesConsistency(s, res);
      var s1 := InsertResult(s, res).store;
      SampleResultsPreserveConsistency(s1, quizId, i + 1, n, answersPerQuestion, date);
      assert SampleResults(s, quizId, i, n, answersPerQuestion, date) == SampleResults(s1, quizId, i + 1, n, answersPerQuestion, date);
    }
  }

  // ---------------------------------------------------------------------
  // One generated quiz

  /** `r` keeps every row of `s`, and every question, result or answer it
      adds belongs to a quiz or question that `s` did not have yet. */
  ghost predicate AddsBelowNew(s: Store, r: Store) {
    && (forall k :: k in s.quizzes ==> k in r.quizzes && r.quizzes[k] == s.quizzes[k])
    && (forall k :: k in s.questions ==> k in r.questions && r.questions[k] == s.questions[k])
    && (forall k :: k in s.answers ==> k in r.answers && r.answers[k] == s.answers[k])
    && (forall k :: k in s.results ==> k in r.results && r.results[k] == s.results[k])
    && (forall k :: k in r.questions && k !in s.questions ==> r.questions[k].quizId >= s.next.quiz)
    && (forall k :: k in r.results && k !in s.results ==> r.results[k].quizId >= s.next.quiz)
    && (forall k :: k in r.answers && k !in s.answers ==> r.answers[k].questionId >= s.next.question)
  }

  /** CreateSampleQuiz: a quiz titled "Quiz {num} Title" by `authorId`, with
      `questions` questions of `answersPerQuestion` answers each and
      `results` results, every row dated `date`. */
  function CreateSampleQuiz(s: Store, num: int, authorId: string, viewCount: int, questions: int,
                            answersPerQuestion: int, results: int, date: int): (r: Store)
    requires authorId in s.users
    ensures r.users == s.users
    ensures r.next.quiz == s.next.quiz + 1 && r.next.question >= s.next.question
    ensures r.quizzes == s.quizzes[s.next.quiz := SampleQuiz(num, authorId, viewCount, date).(id := s.next.quiz)]
  {
    var s1 := InsertQuiz(s, SampleQuiz(num, authorId, viewCount, date)).store;
    var s2 := SampleQuestions(s1, s.next.quiz, 0, questions, answersPerQuestion, date);
    SampleResults(s2, s.next.quiz, 0, results, answersPerQuestion, date)
  }

  lemma CreateSampleQuizKeysBelowIdentity(s: Store, num: int, authorId: string, viewCount: int, questions: int,
                                          answersPerQuestion: int, results: int, date: int)
    requires KeysBelowIdentity(s) && authorId in s.users
    ensures KeysBelowIdentity(CreateSampleQuiz(s, num, authorId, viewCount, questions, answersPerQuestion, results, date))
  {
    var s1 := InsertQuiz(s, SampleQuiz(num, authorId, viewCount, date)).store;
    SampleQuestionsRows(s1, s.next.quiz, 0, questions, answersPerQuestion, date);
    var s2 := SampleQuestions(s1, s.next.quiz, 0, questions, answersPerQuestion, date);
    SampleResultsRows(s2, s.next.quiz, 0, results, answersPerQuestion, date);
  }

  /** CreateSampleQuiz only adds rows, and every question and result it
      adds belongs to the new quiz. */
  lemma CreateSampleQuizAddsBelowNew(s: Store, num: int, authorId: string, viewCount: int, questions: int,
                                     answersPerQuestion: int, results: int, date: int)
    requires KeysBelowIdentity(s) && authorId in s.users
    ensures var r := CreateSampleQuiz(s, num, authorId, viewCount, questions, answersPerQuestion, results, date);
      && AddsBelowNew(s, r)
      && (forall k :: k in r.questions && k !in s.questions ==> r.questions[k].quizId == s.next.quiz)
      && (forall k :: k in r.results && k !in s.results ==> r.results[k].quizId == s.next.quiz)
  {
    var s1 := InsertQuiz(s, SampleQuiz(num, authorId, viewCount, date)).store;
    SampleQuestionsRows(s1, s.next.quiz, 0, questions, answersPerQuestion, date);
    SampleQuestionsContents(s1, s.next.quiz, 0, questions, answersPerQuestion, date);
    SampleQuestionsAnswers(s1, s.next.quiz, 0, questions, answersPerQuestion, date);
    var s2 := SampleQuestions(s1, s.next.quiz, 0, questions, answersPerQuestion, date);
    SampleResultsRows(s2, s.next.quiz, 0, results, answersPerQuestion, date);
    var r := SampleResults(s2, s.next.quiz, 0, results, answersPerQuestion, date);
    assert r == CreateSampleQuiz(s, num, authorId, viewCount, questions, answersPerQuestion, results, date);
  }

  lemma CreateSampleQuizPreservesConsistency(s: Store, num: int, authorId: string, viewCount: int, questions: int,
                                             answersPerQuestion: int, results: int, date: int)
    requires Consistent(s) && authorId in s.users
    ensures Consistent(CreateSampleQuiz(s, num, authorId, viewCount, questions, answersPerQuestion, results, date))
  {
    var q := SampleQuiz(num, authorId, viewCount, date);
    InsertQuizPreservesConsistency(s, q);
    var s1 := InsertQuiz(s, q).store;
    SampleQuestionsPreserveConsistency(s1, s.next.quiz, 0, questions, answersPerQuestion, date);
    var s2 := SampleQuestions(s1, s.next.quiz, 0, questions, answersPerQuestion, date);
    SampleResultsPreserveConsistency(s2, s.next.quiz, 0, results, answersPerQuestion, date);
  }

  /** Every foreign key is below the identity its parent table hands out next. */
  ghost predicate ParentsBelowIdentity(s: Store) {
    && (forall k :: k in s.questions ==> s.questions[k].quizId < s.next.quiz)
    && (forall k :: k in s.results ==> s.results[k].quizId < s.next.quiz)
    && (forall k :: k in s.answers ==> s.answers[k].questionId < s.next.question)
  }

  lemma ConsistentParentsBelowIdentity(s: Store)
    requires Consistent(s)
    ensures ParentsBelowIdentity(s)
  {
    forall k | k in s.answers ensures s.answers[k].questionId < s.next.question {
      assert s.answers[k].questionId in s.questions;
    }
  }

  /** Quiz `id` of `s` is the generated quiz number `num`: its own fields,
      its questions with their answers, and its results. */
  ghost predicate IsSampleQuiz(s: Store, id: int, num: int, authorId: string, viewCount: int, questions: int,
                               answersPerQuestion: int, results: int, date: int) {
    && id in s.quizzes
    && s.quizzes[id] == SampleQuiz(num, authorId, viewCount, date).(id := id)
    && HasSampleQuestions(s, id, questions, answersPerQuestion, date)
    && HasSampleResults(s, id, results, answersPerQuestion, date)
  }

  /** Quiz `id` has exactly `n` questions, each a generated question with
      its generated answers. */
  ghost predicate HasSampleQuestions(s: Store, id: int, n: int, answersPerQuestion: int, date: int) {
    && |QuestionsOf(s, {id})| == Count(0, n)
    && forall q :: q in QuestionsOf(s, {id}) ==>
         s.questions[q] == SampleQuestion(id, date).(id := q) && HasSampleAnswers(s, q, answersPerQuestion, date)
  }

  /** Quiz `id` has exactly `n` results, each a generated result. */
  ghost predicate HasSampleResults(s: Store, id: int, n: int, answersPerQuestion: int, date: int) {
    && |ResultsOf(s, id)| == Count(0, n)
    && forall k :: k in ResultsOf(s, id) ==> s.results[k] == SampleResult(id, answersPerQuestion, date).(id := k)
  }

  /** The questions generated for a quiz that had none are exactly its
      questions, each with its generated answers. */
  lemma SampleQuestionsOfNewQuiz(s: Store, id: int, questions: int, answersPerQuestion: int, date: int)
    requires KeysBelowIdentity(s) && id in s.quizzes
    requires forall k :: k in s.questions ==> s.questions[k].quizId != id
    requires forall k :: k in s.answers ==> s.answers[k].questionId < s.next.question
    ensures HasSampleQuestions(SampleQuestions(s, id, 0, questions, answersPerQuestion, date), id, questions,
                               answersPerQuestion, date)
  {
    SampleQuestionsRows(s, id, 0, questions, answersPerQuestion, date);
    SampleQuestionsContents(s, id, 0, questions, answersPerQuestion, date);
    var r := SampleQuestions(s, id, 0, questions, answersPerQuestion, date);
    var lo := s.next.question;
    var hi := r.next.question;
    forall k ensures k in QuestionsOf(r, {id}) <==> k in Range(lo, hi) {
      if k in s.questions {
        assert s.questions[k].quizId != id;
      }
    }
    assert QuestionsOf(r, {id}) == Range(lo, hi);
    forall q | q in QuestionsOf(r, {id})
      ensures r.questions[q] == SampleQuestion(id, date).(id := q) && HasSampleAnswers(r, q, answersPerQuestion, date)
    {
      assert lo <= q < hi;
      SampleQuestionHasSampleAnswers(s, id, 0, questions, answersPerQuestion, date, q);
    }
  }

  /** Generating results leaves the questions and answers alone. */
  lemma SampleResultsKeepQuestions(s: Store, quizId: int, i: int, n: int, answersPerQuestion: int, date: int,
                                   id: int, questions: int)
    requires quizId in s.quizzes
    requires HasSampleQuestions(s, id, questions, answersPerQuestion, date)
    ensures HasSampleQuestions(SampleResults(s, quizId, i, n, answersPerQuestion, date), id, questions,
                               answersPerQuestion, date)
  {
    var r := SampleResults(s, quizId, i, n, answersPerQuestion, date);
    assert QuestionsOf(r, {id}) == QuestionsOf(s, {id});
    forall q | q in QuestionsOf(r, {id}) ensures HasSampleAnswers(r, q, answersPerQuestion, date) {
      assert AnswersOf(r, q) == AnswersOf(s, q) && AnswerValues(r, q) == AnswerValues(s, q);
    }
  }

  lemma CreateSampleQuizQuestions(s: Store, num: int, authorId: string, viewCount: int, questions: int,
                                  answersPerQuestion: int, results: int, date: int)
    requires KeysBelowIdentity(s) && ParentsBelowIdentity(s) && authorId in s.users
    ensures HasSampleQuestions(CreateSampleQuiz(s, num, authorId, viewCount, questions, answersPerQuestion, results, date),
                               s.next.quiz, questions, answersPerQuestion, date)
  {
    var id := s.next.quiz;
    var s1 := InsertQuiz(s, SampleQuiz(num, authorId, viewCount, date)).store;
    assert forall k :: k in s1.questions ==> s1.questions[k].quizId != id;
    SampleQuestionsOfNewQuiz(s1, id, questions, answersPerQuestion, date);
    var s2 := SampleQuestions(s1, id, 0, questions, answersPerQuestion, date);
    SampleResultsKeepQuestions(s2, id, 0, results, answersPerQuestion, date, id, questions);
    assert SampleResults(s2, id, 0, results, answersPerQuestion, date)
        == CreateSampleQuiz(s, num, authorId, viewCount, questions, answersPerQuestion, results, date);
  }

  lemma CreateSampleQuizResults(s: Store, num: int, authorId: string, viewCount: int, questions: int,
                                answersPerQuestion: int, results: int, date: int)
    requires KeysBelowIdentity(s) && ParentsBelowIdentity(s) && authorId in s.users
    ensures HasSampleResults(CreateSampleQuiz(s, num, authorId, viewCount, questions, answersPerQuestion, results, date),
                             s.next.quiz, results, answersPerQuestion, date)
  {
    var id := s.next.quiz;
    var s1 := InsertQuiz(s, SampleQuiz(num, authorId, viewCount, date)).store;
    SampleQuestionsRows(s1, id, 0, questions, answersPerQuestion, date);
    var s2 := SampleQuestions(s1, id, 0, questions, answersPerQuestion, date);
    SampleResultsRows(s2, id, 0, results, answersPerQuestion, date);
    var r := SampleResults(s2, id, 0, results, answersPerQuestion, date);
    assert r == CreateSampleQuiz(s, num, authorId, viewCount, questions, answersPerQuestion, results, date);
    assert ResultsOf(r, id) == Range(s2.next.result, r.next.result) by {
      forall k ensures k in ResultsOf(r, id) <==> k in Range(s2.next.result, r.next.result) {
        if k in s.results {
          assert s.results[k].quizId < id;
        }
      }
    }
  }

  /** The quiz CreateSampleQuiz adds has exactly the generated shape. */
  lemma CreateSampleQuizShape(s: Store, num: int, authorId: string, viewCount: int, questions: int,
                              answersPerQuestion: int, results: int, date: int)
    requires KeysBelowIdentity(s) && ParentsBelowIdentity(s) && authorId in s.users
    ensures IsSampleQuiz(CreateSampleQuiz(s, num, authorId, viewCount, questions, answersPerQuestion, results, date),
                         s.next.quiz, num, authorId, viewCount, questions, answersPerQuestion, results, date)
  {
    CreateSampleQuizQuestions(s, num, authorId, viewCount, questions, answersPerQuestion, results, date);
    CreateSampleQuizResults(s, num, authorId, viewCount, questions, answersPerQuestion, results, date);
  }

  /** Adding rows below new parents leaves a generated quiz as it was. */
  lemma SampleQuizFrame(s: Store, r: Store, id: int, num: int, authorId: string, viewCount: int, questions: int,
                        answersPerQuestion: int, results: int, date: int)
    requires KeysBelowIdentity(s) && AddsBelowNew(s, r)
    requires IsSampleQuiz(s, id, num, authorId, viewCount, questions, answersPerQuestion, results, date)
    ensures IsSampleQuiz(r, id, num, authorId, viewCount, questions, answersPerQuestion, results, date)
  {
    assert QuestionsOf(r, {id}) == QuestionsOf(s, {id}) by {
      forall k ensures k in QuestionsOf(r, {id}) <==> k in QuestionsOf(s, {id}) {
        if k in r.questions && k !in s.questions {
          assert r.questions[k].quizId >= s.next.quiz;
        }
      }
    }
    assert ResultsOf(r, id) == ResultsOf(s, id) by {
      forall k ensures k in ResultsOf(r, id) <==> k in ResultsOf(s, id) {
        if k in r.results && k !in s.results {
          assert r.results[k].quizId >= s.next.quiz;
        }
      }
    }
    forall q | q in QuestionsOf(r, {id}) ensures HasSampleAnswers(r, q, answersPerQuestion, date) {
      assert q < s.next.question;
      AnswersFrame(s, r, q, answersPerQuestion, date);
    }
  }

  lemma AddsBelowNewTransitive(a: Store, b: Store, c: Store)
    requires AddsBelowNew(a, b) && AddsBelowNew(b, c)
    requires b.next.quiz >= a.next.quiz && b.next.question >= a.next.question
    ensures AddsBelowNew(a, c)
  {
  }

  // ---------------------------------------------------------------------
  // The generated quizzes of a DEBUG build

  /** The number of the generated quiz stored under `id` when quiz `i`
      took id `first`. */
  function SampleNumberAt(i: int, first: int, id: int): int {
    i + (id - first)
  }

  /** Numbering from the next quiz on, one id later, gives the same number. */
  lemma SampleNumberAtNext(i: int, first: int, id: int)
    ensures SampleNumberAt(i + 1, first + 1, id) == SampleNumberAt(i, first, id)
  {
  }

  /** Generated quiz `i` of `num` has been viewed `num - i` times. */
  function SampleViewCount(num: int, i: int): int {
    num - i
  }

  /** Quizzes `i`, ..., `num`: quiz `i` has ViewCount `num - i` and three
      questions, three answers per question and three results. */
  function SampleQuizzes(s: Store, authorId: string, i: int, num: int, date: int): (r: Store)
    requires authorId in s.users
    ensures r.users == s.users
    ensures r.next.quiz == s.next.quiz + Count(i, num + 1) && r.next.question >= s.next.question
    decreases num + 1 - i
  {
    if i > num then s
    else SampleQuizzes(CreateSampleQuiz(s, i, authorId, SampleViewCount(num, i), 3, 3, 3, date), authorId, i + 1, num, date)
  }

  lemma {:induction false} SampleQuizzesAddBelowNew(s: Store, authorId: string, i: int, num: int, date: int)
    requires KeysBelowIdentity(s) && authorId in s.users
    ensures AddsBelowNew(s, SampleQuizzes(s, authorId, i, num, date))
    decreases num + 1 - i
  {
    if i <= num {
      var s1 := CreateSampleQuiz(s, i, authorId, SampleViewCount(num, i), 3, 3, 3, date);
      CreateSampleQuizKeysBelowIdentity(s, i, authorId, SampleViewCount(num, i), 3, 3, 3, date);
      CreateSampleQuizAddsBelowNew(s, i, authorId, SampleViewCount(num, i), 3, 3, 3, date);
      SampleQuizzesAddBelowNew(s1, authorId, i + 1, num, date);
      AddsBelowNewTransitive(s, s1, SampleQuizzes(s1, authorId, i + 1, num, date));
    }
  }

  lemma {:induction false} SampleQuizzesPreserveConsistency(s: Store, authorId: string, i: int, num: int, date: int)
    requires Consistent(s) && authorId in s.users
    ensures Consistent(SampleQuizzes(s, authorId, i, num, date))
    decreases num + 1 - i
  {
    if i <= num {
      CreateSampleQuizPreservesConsistency(s, i, authorId, SampleViewCount(num, i), 3, 3, 3, date);
      var s1 := CreateSampleQuiz(s, i, authorId, SampleViewCount(num, i), 3, 3, 3, date);
      SampleQuizzesPreserveConsistency(s1, authorId, i + 1, num, date);
      assert SampleQuizzes(s, authorId, i, num, date) == SampleQuizzes(s1, authorId, i + 1, num, date);
    }
  }

  /** The generated quizzes take the next `Count(i, num + 1)` ids and no others. */
  lemma {:induction false} SampleQuizzesKeys(s: Store, authorId: string, i: int, num: int, date: int)
    requires authorId in s.users
    ensures var r := SampleQuizzes(s, authorId, i, num, date);
      forall k :: k in r.quizzes <==> k in s.quizzes || s.next.quiz <= k < r.next.quiz
    decreases num + 1 - i
  {
    if i <= num {
      var s1 := CreateSampleQuiz(s, i, authorId, SampleViewCount(num, i), 3, 3, 3, date);
      SampleQuizzesKeys(s1, authorId, i + 1, num, date);
      var r := SampleQuizzes(s1, authorId, i + 1, num, date);
      assert SampleQuizzes(s, authorId, i, num, date) == r;
      forall k ensures k in r.quizzes <==> k in s.quizzes || s.next.quiz <= k < r.next.quiz {
        assert k in s1.quizzes <==> k in s.quizzes || k == s.next.quiz;
      }
    }
  }

  /** The store the loop has built when it is about to create the quiz
      that gets id `k`. */
  ghost function SampleQuizzesBefore(s: Store, authorId: string, i: int, num: int, date: int, k: int): (u: Store)
    requires authorId in s.users
    ensures authorId in u.users
    decreases num + 1 - i
  {
    if i > num || k <= s.next.quiz then s
    else SampleQuizzesBefore(CreateSampleQuiz(s, i, authorId, SampleViewCount(num, i), 3, 3, 3, date), authorId, i + 1, num, date, k)
  }

  lemma {:induction false} SampleQuizzesBeforeNext(s: Store, authorId: string, i: int, num: int, date: int, k: int)
    requires authorId in s.users
    requires s.next.quiz <= k < SampleQuizzes(s, authorId, i, num, date).next.quiz
    ensures SampleQuizzesBefore(s, authorId, i, num, date, k).next.quiz == k
    decreases num + 1 - i
  {
    if k != s.next.quiz {
      var s1 := CreateSampleQuiz(s, i, authorId, SampleViewCount(num, i), 3, 3, 3, date);
      assert SampleQuizzes(s, authorId, i, num, date) == SampleQuizzes(s1, authorId, i + 1, num, date);
      SampleQuizzesBeforeNext(s1, authorId, i + 1, num, date, k);
    }
  }

  lemma {:induction false} SampleQuizzesBeforeConsistent(s: Store, authorId: string, i: int, num: int, date: int, k: int)
    requires Consistent(s) && authorId in s.users
    ensures Consistent(SampleQuizzesBefore(s, authorId, i, num, date, k))
    decreases num + 1 - i
  {
    if i <= num && k > s.next.quiz {
      CreateSampleQuizPreservesConsistency(s, i, authorId, SampleViewCount(num, i), 3, 3, 3, date);
      var s1 := CreateSampleQuiz(s, i, authorId, SampleViewCount(num, i), 3, 3, 3, date);
      SampleQuizzesBeforeConsistent(s1, authorId, i + 1, num, date, k);
      assert SampleQuizzesBefore(s, authorId, i, num, date, k) == SampleQuizzesBefore(s1, authorId, i + 1, num, date, k);
    }
  }

  /** Before its first quiz the loop has built nothing; before its second
      it has built the first. */
  lemma SampleQuizzesBeforeFirst(s: Store, authorId: string, i: int, num: int, date: int)
    requires authorId in s.users && i <= num
    ensures SampleQuizzesBefore(s, authorId, i, num, date, s.next.quiz) == s
    ensures SampleQuizzesBefore(s, authorId, i, num, date, s.next.quiz + 1)
         == CreateSampleQuiz(s, i, authorId, SampleViewCount(num, i), 3, 3, 3, date)
  {
    var s1 := CreateSampleQuiz(s, i, authorId, SampleViewCount(num, i), 3, 3, 3, date);
    assert SampleQuizzesBefore(s1, authorId, i + 1, num, date, s.next.quiz + 1) == s1;
  }

  /** Past its first quiz, the loop's progress is the rest of the loop's
      progress from the store after that quiz. */
  lemma SampleQuizzesBeforeLater(s: Store, authorId: string, i: int, num: int, date: int, k: int)
    requires authorId in s.users && i <= num && k > s.next.quiz
    ensures SampleQuizzesBefore(s, authorId, i, num, date, k)
         == SampleQuizzesBefore(CreateSampleQuiz(s, i, authorId, SampleViewCount(num, i), 3, 3, 3, date),
                                authorId, i + 1, num, date, k)
  {
  }

  /** Creating the quiz that gets id `k` takes the loop from the store it
      had built before that quiz to the store it has built before the next. */
  ghost predicate StepsBefore(s: Store, authorId: string, i: int, num: int, date: int, k: int, number: int)
    requires authorId in s.users
  {
    SampleQuizzesBefore(s, authorId, i, num, date, k + 1)
      == CreateSampleQuiz(SampleQuizzesBefore(s, authorId, i, num, date, k), number, authorId,
                          SampleViewCount(num, number), 3, 3, 3, date)
  }

  /** The step holds from `s` once it holds from the store after the
      loop's first quiz. */
  lemma SampleQuizzesBeforeStepLater(s: Store, authorId: string, i: int, num: int, date: int, k: int, number: int)
    requires authorId in s.users && i <= num && k > s.next.quiz
    requires StepsBefore(CreateSampleQuiz(s, i, authorId, SampleViewCount(num, i), 3, 3, 3, date),
                         authorId, i + 1, num, date, k, number)
    ensures StepsBefore(s, authorId, i, num, date, k, number)
  {
    SampleQuizzesBeforeLater(s, authorId, i, num, date, k);
    SampleQuizzesBeforeLater(s, authorId, i, num, date, k + 1);
  }

  lemma {:induction false} SampleQuizzesBeforeStep(s: Store, authorId: string, i: int, num: int, date: int, k: int,
                                                   number: int)
    requires authorId in s.users
    requires i <= num && s.next.quiz <= k <= s.next.quiz + (num - i)
    requires number == SampleNumberAt(i, s.next.quiz, k)
    ensures StepsBefore(s, authorId, i, num, date, k, number)
    decreases num + 1 - i
  {
    if k == s.next.quiz {
      SampleQuizzesBeforeFirst(s, authorId, i, num, date);
    } else {
      var s1 := CreateSampleQuiz(s, i, authorId, SampleViewCount(num, i), 3, 3, 3, date);
      SampleNumberAtNext(i, s.next.quiz, k);
      SampleQuizzesBeforeStep(s1, authorId, i + 1, num, date, k, number);
      SampleQuizzesBeforeStepLater(s, authorId, i, num, date, k, number);
    }
  }

  /** From any point of the loop on, the rest of the loop only adds rows
      below the quizzes it creates itself. */
  lemma {:induction false} SampleQuizzesAfter(s: Store, authorId: string, i: int, num: int, date: int, k: int)
    requires KeysBelowIdentity(s) && authorId in s.users
    ensures AddsBelowNew(SampleQuizzesBefore(s, authorId, i, num, date, k), SampleQuizzes(s, authorId, i, num, date))
    decreases num + 1 - i
  {
    if i > num || k <= s.next.quiz {
      assert SampleQuizzesBefore(s, authorId, i, num, date, k) == s;
      SampleQuizzesAddBelowNew(s, authorId, i, num, date);
    } else {
      var s1 := CreateSampleQuiz(s, i, authorId, SampleViewCount(num, i), 3, 3, 3, date);
      CreateSampleQuizKeysBelowIdentity(s, i, authorId, SampleViewCount(num, i), 3, 3, 3, date);
      assert SampleQuizzes(s, authorId, i, num, date) == SampleQuizzes(s1, authorId, i + 1, num, date);
      assert SampleQuizzesBefore(s, authorId, i, num, date, k) == SampleQuizzesBefore(s1, authorId, i + 1, num, date, k);
      SampleQuizzesAfter(s1, authorId, i + 1, num, date, k);
    }
  }

  /** The quiz stored `k - s.next.quiz` places after the first new id is
      generated quiz number `number`, that is `i + (k - s.next.quiz)`,
      written by `authorId`, with ViewCount `num - number`, three questions
      of three answers each and three results. */
  lemma SampleQuizzesShape(s: Store, authorId: string, i: int, num: int, date: int, k: int, number: int)
    requires Consistent(s) && authorId in s.users
    requires s.next.quiz <= k < SampleQuizzes(s, authorId, i, num, date).next.quiz
    requires number == SampleNumberAt(i, s.next.quiz, k)
    ensures IsSampleQuiz(SampleQuizzes(s, authorId, i, num, date), k, number, authorId,
                         SampleViewCount(num, number), 3, 3, 3, date)
  {
    var u := SampleQuizzesBefore(s, authorId, i, num, date, k);
    SampleQuizzesBeforeNext(s, authorId, i, num, date, k);
    SampleQuizzesBeforeConsistent(s, authorId, i, num, date, k);
    ConsistentParentsBelowIdentity(u);
    CreateSampleQuizShape(u, number, authorId, SampleViewCount(num, number), 3, 3, 3, date);
    CreateSampleQuizKeysBelowIdentity(u, number, authorId, SampleViewCount(num, number), 3, 3, 3, date);
    SampleQuizzesBeforeStep(s, authorId, i, num, date, k, number);
    SampleQuizzesAfter(s, authorId, i, num, date, k + 1);
    SampleQuizFrame(CreateSampleQuiz(u, number, authorId, SampleViewCount(num, number), 3, 3, 3, date),
                    SampleQuizzes(s, authorId, i, num, date), k, number, authorId, SampleViewCount(num, number),
                    3, 3, 3, date);
  }

  // ---------------------------------------------------------------------
  // Accounts

  const AdminName := "Admin"

  /** An account the seeder creates: created on the seed date, last
      modified `now`; DisplayName and Notes are left null. */
  function SeedAccount(id: string, name: string, email: string, now: int): User {
    User(Some(id), Some(name), Some(email), None, None, 0, 0, SeedDate, now)
  }

  /** The accounts CreateUsers adds, in order: "Admin" always, then "Ryan",
      "Solice" and "Vodan" in a DEBUG build, with `ids[i]` the fresh GUID of
      the i-th account. */
  function SeedAccounts(debug: bool, ids: seq<string>, now: int): (r: seq<User>)
    requires |ids| == 4
    ensures |r| == if debug then 4 else 1
    ensures r[0] == SeedAccount(ids[0], AdminName, "admin@testmakerfree.com", now)
    ensures forall i :: 0 <= i < |r| ==> ValidUser(r[i]) && r[i].id == Some(ids[i])
    ensures forall i :: 1 <= i < |r| ==> r[i].userName != Some(AdminName)
  {
    [SeedAccount(ids[0], AdminName, "admin@testmakerfree.com", now)]
    + if debug then
        [SeedAccount(ids[1], "Ryan", "ryan@testmakerfree.com", now),
         SeedAccount(ids[2], "Solice", "solice@testmakerfree.com", now),
         SeedAccount(ids[3], "Vodan", "vodan@testmakerfree.com", now)]
      else []
  }

  /** The ids of a list of accounts that all have one. */
  function AccountIds(us: seq<User>): set<string> {
    set i | 0 <= i < |us| && us[i].id.Some? :: us[i].id.value
  }

  /** Every account can be stored: it is valid, its id is new to `s`, and
      no two of them share an id. */
  predicate Insertable(s: Store, us: seq<User>) {
    && (forall i :: 0 <= i < |us| ==> ValidUser(us[i]) && us[i].id.value !in s.users)
    && (forall i, j :: 0 <= i < j < |us| ==> us[i].id != us[j].id)
  }

  /** `Users.AddRange(us)` followed by one SaveChanges: all accounts are
      stored, or (`None`) the save fails and none is. */
  function InsertUsers(s: Store, us: seq<User>): (r: Option<Store>)
    ensures r.Some? ==> r.value == s.(users := r.value.users)
    decreases |us|
  {
    if us == [] then Some(s)
    else match InsertUser(s, us[0])
      case Rejected(_) => None
      case Saved(s1, _) => InsertUsers(s1, us[1..])
  }

  /** The accounts are insertable exactly when the first one is valid and
      new, and the rest are insertable once it is stored. */
  lemma InsertableStep(s: Store, us: seq<User>)
    requires us != [] && ValidUser(us[0]) && us[0].id.value !in s.users
    ensures Insertable(s, us) <==> Insertable(s.(users := s.users[us[0].id.value := us[0]]), us[1..])
  {
    var s1 := s.(users := s.users[us[0].id.value := us[0]]);
    if Insertable(s1, us[1..]) {
      forall i, j | 0 <= i < j < |us| ensures us[i].id != us[j].id {
        if i == 0 {
          assert us[j] == us[1..][j - 1];
        } else {
          assert us[i] == us[1..][i - 1] && us[j] == us[1..][j - 1];
        }
      }
      forall i | 0 <= i < |us| ensures ValidUser(us[i]) && us[i].id.value !in s.users {
        if i > 0 {
          assert us[i] == us[1..][i - 1];
        }
      }
    }
    if Insertable(s, us) {
      forall i | 0 <= i < |us[1..]| ensures us[1..][i].id.value !in s1.users {
        assert us[1..][i] == us[i + 1];
        assert us[0].id != us[i + 1].id;
      }
    }
  }

  /** The ids of a non-empty list of accounts: the first one's and the rest's. */
  lemma AccountIdsStep(us: seq<User>)
    requires us != [] && us[0].id.Some?
    ensures AccountIds(us) == {us[0].id.value} + AccountIds(us[1..])
  {
    forall k ensures k in AccountIds(us) <==> k in {us[0].id.value} + AccountIds(us[1..]) {
      if k in AccountIds(us) {
        var i :| 0 <= i < |us| && us[i].id.Some? && us[i].id.value == k;
        if i > 0 {
          assert us[1..][i - 1] == us[i];
        }
      }
      if k in AccountIds(us[1..]) {
        var i :| 0 <= i < |us[1..]| && us[1..][i].id.Some? && us[1..][i].id.value == k;
        assert us[i + 1] == us[1..][i];
      }
    }
  }

  /** The save succeeds exactly when the accounts are insertable. */
  lemma {:induction false} InsertUsersAccepts(s: Store, us: seq<User>)
    ensures InsertUsers(s, us).Some? <==> Insertable(s, us)
    decreases |us|
  {
    if us != [] && ValidUser(us[0]) && us[0].id.value !in s.users {
      InsertUsersAccepts(s.(users := s.users[us[0].id.value := us[0]]), us[1..]);
      InsertableStep(s, us);
    }
  }

  /** A successful save leaves the old accounts and the new ones under their ids. */
  lemma {:induction false} InsertUsersStores(s: Store, us: seq<User>)
    requires Insertable(s, us)
    ensures InsertUsers(s, us).Some? ==>
      var r := InsertUsers(s, us).value;
      && r.users.Keys == s.users.Keys + AccountIds(us)
      && (forall k :: k in s.users ==> r.users[k] == s.users[k])
      && (forall i :: 0 <= i < |us| ==> r.users[us[i].id.value] == us[i])
    decreases |us|
  {
    if us != [] {
      var u := us[0];
      var s1 := s.(users := s.users[u.id.value := u]);
      InsertableStep(s, us);
      InsertUsersStores(s1, us[1..]);
      AccountIdsStep(us);
      if InsertUsers(s, us).Some? {
        var r := InsertUsers(s, us).value;
        forall k | k in s.users ensures r.users[k] == s.users[k] {
          assert k != u.id.value;
        }
        forall i | 0 <= i < |us| ensures r.users[us[i].id.value] == us[i] {
          if i > 0 {
            assert us[1..][i - 1] == us[i];
          }
        }
      }
    }
  }

  /** The save succeeds exactly when the accounts are insertable, and then
      the table holds the old accounts and the new ones under their ids. */
  lemma InsertUsersSpec(s: Store, us: seq<User>)
    ensures InsertUsers(s, us).Some? <==> Insertable(s, us)
    ensures InsertUsers(s, us).Some? ==>
      var r := InsertUsers(s, us).value;
      && r.users.Keys == s.users.Keys + AccountIds(us)
      && (forall k :: k in s.users ==> r.users[k] == s.users[k])
      && (forall i :: 0 <= i < |us| ==> r.users[us[i].id.value] == us[i])
  {
    InsertUsersAccepts(s, us);
    if Insertable(s, us) {
      InsertUsersStores(s, us);
    }
  }

  /** CreateUsers: the seeded accounts, with `ids` the GUIDs drawn for them
      and `now` the clock; `None` when the save fails. */
  function CreateUsers(s: Store, debug: bool, ids: seq<string>, now: int): (r: Option<Store>)
    requires |ids| == 4
    ensures r.Some? ==> r.value == s.(users := r.value.users)
  {
    InsertUsers(s, SeedAccounts(debug, ids, now))
  }

  /** The GUIDs drawn for the accounts a build creates are all different
      and none is taken yet. */
  predicate FreshIds(s: Store, debug: bool, ids: seq<string>)
    requires |ids| == 4
  {
    var n := if debug then 4 else 1;
    && (forall i :: 0 <= i < n ==> ids[i] !in s.users)
    && (forall i, j :: 0 <= i < j < n ==> ids[i] != ids[j])
  }

  /** CreateUsers succeeds exactly when the drawn GUIDs are fresh; it then
      adds the Admin account, and the three sample accounts in a DEBUG
      build, to the accounts already there. */
  lemma CreateUsersAdds(s: Store, debug: bool, ids: seq<string>, now: int)
    requires |ids| == 4
    ensures CreateUsers(s, debug, ids, now).Some? <==> FreshIds(s, debug, ids)
    ensures CreateUsers(s, debug, ids, now).Some? ==>
      var r := CreateUsers(s, debug, ids, now).value;
      && r.users.Keys == s.users.Keys + (if debug then {ids[0], ids[1], ids[2], ids[3]} else {ids[0]})
      && (forall k :: k in s.users ==> r.users[k] == s.users[k])
      && r.users[ids[0]] == SeedAccount(ids[0], AdminName, "admin@testmakerfree.com", now)
      && (forall k :: k in r.users && k !in s.users && k != ids[0] ==> r.users[k].userName != Some(AdminName))
  {
    var us := SeedAccounts(debug, ids, now);
    InsertUsersSpec(s, us);
    SeedInsertable(s, us, debug, ids);
    if CreateUsers(s, debug, ids, now).Some? {
      var r := CreateUsers(s, debug, ids, now).value;
      SeedAccountIds(us, debug, ids);
      forall k | k in r.users && k !in s.users && k != ids[0] ensures r.users[k].userName != Some(AdminName) {
        var i :| 0 <= i < |us| && us[i].id.Some? && us[i].id.value == k;
        assert r.users[k] == us[i];
      }
    }
  }

  /** Accounts carrying the drawn GUIDs in order are insertable exactly
      when those GUIDs are fresh. */
  lemma SeedInsertable(s: Store, us: seq<User>, debug: bool, ids: seq<string>)
    requires |ids| == 4 && |us| == (if debug then 4 else 1)
    requires forall i :: 0 <= i < |us| ==> ValidUser(us[i]) && us[i].id == Some(ids[i])
    ensures Insertable(s, us) <==> FreshIds(s, debug, ids)
  {
    assert forall i :: 0 <= i < |us| ==> us[i].id.value == ids[i];
  }

  /** Accounts carrying the drawn GUIDs in order have exactly those ids. */
  lemma SeedAccountIds(us: seq<User>, debug: bool, ids: seq<string>)
    requires |ids| == 4 && |us| == (if debug then 4 else 1)
    requires forall i :: 0 <= i < |us| ==> us[i].id == Some(ids[i])
    ensures AccountIds(us) == (if debug then {ids[0], ids[1], ids[2], ids[3]} else {ids[0]})
  {
    forall k ensures k in AccountIds(us) <==> k in (if debug then {ids[0], ids[1], ids[2], ids[3]} else {ids[0]}) {
      if debug && k == ids[3] {
        assert us[3].id.value == k;
      }
      if debug && k == ids[2] {
        assert us[2].id.value == k;
      }
      if debug && k == ids[1] {
        assert us[1].id.value == k;
      }
      if k == ids[0] {
        assert us[0].id.value == k;
      }
    }
  }

  /** The ids of the accounts named "Admin". */
  function Admins(s: Store): set<string> {
    set k | k in s.users && s.users[k].userName == Some(AdminName)
  }

  /** `Users.Where(UserName == "Admin").FirstOrDefault().Id`: the id of an
      account named exactly "Admin", the first in key order; `None` when
      there is none, where the source dereferences null and throws. The
      name is compared ordinally, not under the database's collation. */
  function AdminId(s: Store): (r: Option<string>)
    ensures r.None? <==> forall k :: k in s.users ==> s.users[k].userName != Some(AdminName)
    ensures r.Some? ==> r.value in s.users && s.users[r.value].userName == Some(AdminName)
    ensures r.Some? ==> forall k :: k in s.users && s.users[k].userName == Some(AdminName) ==> StrLe(r.value, k)
  {
    assert forall k :: k in s.users && s.users[k].userName == Some(AdminName) ==> k in Admins(s);
    if Admins(s) == {} then None
    else
      StrLeIsTotalOrder();
      assert forall k :: k in Admins(s) <==> k in s.users && s.users[k].userName == Some(AdminName);
      Some(Least(Admins(s), StrLe))
  }

  /** Once CreateUsers has run on a store without an Admin, the Admin it
      created is the one the lookup finds. */
  lemma CreateUsersAdmin(s: Store, debug: bool, ids: seq<string>, now: int)
    requires |ids| == 4 && AdminId(s).None?
    requires CreateUsers(s, debug, ids, now).Some?
    ensures AdminId(CreateUsers(s, debug, ids, now).value) == Some(ids[0])
  {
    CreateUsersAdds(s, debug, ids, now);
  }

  lemma {:induction false} InsertUsersPreservesConsistency(s: Store, us: seq<User>)
    requires Consistent(s)
    ensures InsertUsers(s, us).Some? ==> Consistent(InsertUsers(s, us).value)
    decreases |us|
  {
    if us != [] && InsertUser(s, us[0]).Saved? {
      InsertUserPreservesConsistency(s, us[0]);
      InsertUsersPreservesConsistency(InsertUser(s, us[0]).store, us[1..]);
    }
  }

  // ---------------------------------------------------------------------
  // Quizzes

  /** The texts of the three named quizzes, in short pieces as above. */
  const StarWarsText :=
    "Choose wisely you " + "must, young padawan: " + "this test will prove " + "if your will is " +
    "strong enough to " + "adhere to the " + "principles of the " + "light side of the " +
    "Force or if you're " + "fated to embrace the " + "dark side. No you " + "want to become a " +
    "true JEDI, you can't " + "possibly miss this!"
  const GenerationsText :=
    "Do you feel " + "confortable in your " + "generation? What " + "year should you have " +
    "been born in?Here's " + "a bunch of questions " + "that will help you " + "to find out!"
  const AnimeText :=
    "Do you relentlessly " + "seek revenge like " + "Eren? Are you " + "willing to put your " +
    "like on the stake to " + "protect your friends " + "like Mikasa ? Would " + "you trust your " +
    "fighting skills like " + "Levi or rely on your " + "strategies and " + "tactics like Arwin? " +
    "Unveil your true " + "self with this " + "Attack On Titan " + "personality test!"

  /** The three hand-written quizzes, in the order they are added, by
      `authorId`, dated the seed date and last modified `now`. */
  function NamedQuizzes(authorId: string, now: int): (r: seq<Quiz>)
    ensures |r| == 3 && ByAuthor(r, authorId)
  {
    [Quiz(0, Some(authorId), Some("Are you more Light or Dark side of the Force?"), None,
          Some(StarWarsText),
          None, 0, 0, 2343, SeedDate, now),
     Quiz(0, Some(authorId), Some("GenX, GenY or Genz?"), Some("Find out what decade most represents you"),
          Some(GenerationsText),
          None, 0, 0, 4180, SeedDate, now),
     Quiz(0, Some(authorId), Some("Which Shingeki No Kyojin character are you?"), Some("Attack On Titan personality test"),
          Some(AnimeText),
          None, 0, 0, 5203, SeedDate, now)]
  }

  /** Every quiz of `qs` can be stored and is written by `authorId`. */
  predicate ByAuthor(qs: seq<Quiz>, authorId: string) {
    forall i :: 0 <= i < |qs| ==> ValidQuiz(qs[i]) && qs[i].userId == Some(authorId)
  }

  /** Adds three quizzes in order; they take the next three quiz ids. */
  function AddThreeQuizzes(s: Store, authorId: string, qs: seq<Quiz>): (r: Store)
    requires authorId in s.users && |qs| == 3 && ByAuthor(qs, authorId)
    ensures r == s.(quizzes := r.quizzes, next := s.next.(quiz := s.next.quiz + 3))
    ensures forall k :: k in r.quizzes <==> k in s.quizzes || s.next.quiz <= k < s.next.quiz + 3
    ensures forall k :: k in s.quizzes && !(s.next.quiz <= k < s.next.quiz + 3) ==> r.quizzes[k] == s.quizzes[k]
    ensures forall i :: 0 <= i < 3 ==> r.quizzes[s.next.quiz + i] == qs[i].(id := s.next.quiz + i)
  {
    var s1 := InsertQuiz(s, qs[0]).store;
    var s2 := InsertQuiz(s1, qs[1]).store;
    InsertQuiz(s2, qs[2]).store
  }

  lemma AddThreeQuizzesPreservesConsistency(s: Store, authorId: string, qs: seq<Quiz>)
    requires Consistent(s) && authorId in s.users && |qs| == 3 && ByAuthor(qs, authorId)
    ensures Consistent(AddThreeQuizzes(s, authorId, qs))
  {
    InsertQuizPreservesConsistency(s, qs[0]);
    var s1 := InsertQuiz(s, qs[0]).store;
    InsertQuizPreservesConsistency(s1, qs[1]);
    var s2 := InsertQuiz(s1, qs[1]).store;
    InsertQuizPreservesConsistency(s2, qs[2]);
  }

  /** Adding whole quizzes touches no question, answer or result. */
  lemma AddThreeQuizzesAddsBelowNew(s: Store, authorId: string, qs: seq<Quiz>)
    requires KeysBelowIdentity(s) && authorId in s.users && |qs| == 3 && ByAuthor(qs, authorId)
    ensures AddsBelowNew(s, AddThreeQuizzes(s, authorId, qs))
  {
  }

  /** How many quizzes CreateQuizzes generates before the named ones. */
  function SampleQuizTotal(debug: bool): nat {
    if debug then SampleQuizCount else 0
  }

  /** The date of every generated quiz: the seed date less 47 days. */
  const SampleDate := SeedDate - SampleQuizCount * Day

  /** The body of CreateQuizzes once the author is known: generated
      quizzes 1, ..., `num` dated `date`, then the three named quizzes
      `named`. A build without DEBUG runs the loop zero times. */
  function AuthorQuizzes(s: Store, num: int, date: int, authorId: string, named: seq<Quiz>): (r: Store)
    requires authorId in s.users && |named| == 3 && ByAuthor(named, authorId)
    ensures r.users == s.users
    ensures r.next.quiz == s.next.quiz + Count(1, num + 1) + 3
  {
    AddThreeQuizzes(SampleQuizzes(s, authorId, 1, num, date), authorId, named)
  }

  /** CreateQuizzes: the generated quizzes (DEBUG only), then the named ones,
      all by the Admin account; `None` when there is no Admin. */
  function CreateQuizzes(s: Store, debug: bool, now: int): (r: Option<Store>)
    ensures r.None? <==> AdminId(s).None?
    ensures r.Some? ==> r.value.users == s.users
    ensures r.Some? ==> r.value.next.quiz == s.next.quiz + SampleQuizTotal(debug) + 3
    ensures r.Some? ==> r.value.quizzes != map[]
  {
    match AdminId(s)
    case None => None
    case Some(authorId) =>
      AuthorQuizzesNotEmpty(s, SampleQuizTotal(debug), SampleDate, authorId, NamedQuizzes(authorId, now));
      Some(AuthorQuizzes(s, SampleQuizTotal(debug), SampleDate, authorId, NamedQuizzes(authorId, now)))
  }

  /** Quiz `k` of `r` is generated quiz number `number` of `num`. */
  ghost predicate SampleQuizAt(r: Store, k: int, number: int, authorId: string, num: int, date: int) {
    k in r.quizzes && r.quizzes[k] == SampleQuiz(number, authorId, SampleViewCount(num, number), date).(id := k)
  }

  /** The number of the generated quiz stored under `id` when the
      numbering starts at id `base + 1`. */
  function NumberFrom(base: int, id: int): int {
    id - base
  }

  /** The loop keeps the quizzes already stored. */
  lemma {:induction false} SampleQuizzesKeepQuizzes(s: Store, authorId: string, i: int, num: int, date: int)
    requires authorId in s.users
    requires forall k :: k in s.quizzes ==> k < s.next.quiz
    ensures var r := SampleQuizzes(s, authorId, i, num, date);
      forall k :: k in s.quizzes ==> k in r.quizzes && r.quizzes[k] == s.quizzes[k]
    decreases num + 1 - i
  {
    if i <= num {
      var s1 := CreateSampleQuiz(s, i, authorId, SampleViewCount(num, i), 3, 3, 3, date);
      SampleQuizzesKeepQuizzes(s1, authorId, i + 1, num, date);
      assert SampleQuizzes(s, authorId, i, num, date) == SampleQuizzes(s1, authorId, i + 1, num, date);
    }
  }

  /** A store that keeps the quizzes of `s1` keeps the quiz `s1` added
      last. */
  lemma FirstSampleQuizKept(s: Store, s1: Store, r: Store, i: int, authorId: string, num: int, date: int)
    requires s1.quizzes == s.quizzes[s.next.quiz := SampleQuiz(i, authorId, SampleViewCount(num, i), date).(id := s.next.quiz)]
    requires forall k :: k in s1.quizzes ==> k in r.quizzes && r.quizzes[k] == s1.quizzes[k]
    ensures SampleQuizAt(r, s.next.quiz, i, authorId, num, date)
  {
    assert s.next.quiz in s1.quizzes;
  }

  /** The quiz under each id the loop hands out is the generated quiz of
      that number, counting quiz `i` at id `s.next.quiz`. */
  lemma {:induction false} SampleQuizzesQuizRows(s: Store, authorId: string, i: int, num: int, date: int, base: int)
    requires authorId in s.users && base == s.next.quiz - i
    requires forall k :: k in s.quizzes ==> k < s.next.quiz
    ensures var r := SampleQuizzes(s, authorId, i, num, date);
      forall k :: s.next.quiz <= k < r.next.quiz ==> SampleQuizAt(r, k, NumberFrom(base, k), authorId, num, date)
    decreases num + 1 - i
  {
    if i <= num {
      var s1 := CreateSampleQuiz(s, i, authorId, SampleViewCount(num, i), 3, 3, 3, date);
      var r := SampleQuizzes(s1, authorId, i + 1, num, date);
      assert SampleQuizzes(s, authorId, i, num, date) == r;
      SampleQuizzesKeepQuizzes(s1, authorId, i + 1, num, date);
      FirstSampleQuizKept(s, s1, r, i, authorId, num, date);
      assert NumberFrom(base, s.next.quiz) == i;
      SampleQuizzesQuizRows(s1, authorId, i + 1, num, date, base);
    }
  }

  /** The numbering from `base + 1` is the numbering that gives id
      `first` number 1. */
  lemma SampleRowsRenumbered(r: Store, first: int, later: int, base: int, authorId: string, num: int, date: int)
    requires base == first - 1
    requires forall k :: first <= k < later ==> SampleQuizAt(r, k, NumberFrom(base, k), authorId, num, date)
    ensures forall k :: first <= k < later ==> SampleQuizAt(r, k, SampleNumberAt(1, first, k), authorId, num, date)
  {
    forall k | first <= k < later
      ensures SampleQuizAt(r, k, SampleNumberAt(1, first, k), authorId, num, date)
    {
      assert NumberFrom(base, k) == SampleNumberAt(1, first, k);
    }
  }

  /** Quizzes added at `later` and after leave the generated quizzes
      below `later` in place. */
  lemma SampleRowsKept(s1: Store, r: Store, first: int, later: int, authorId: string, num: int, date: int)
    requires forall k :: k in r.quizzes <==> k in s1.quizzes || later <= k < later + 3
    requires forall k :: k in s1.quizzes && !(later <= k < later + 3) ==> r.quizzes[k] == s1.quizzes[k]
    requires forall k :: first <= k < later ==> SampleQuizAt(s1, k, SampleNumberAt(1, first, k), authorId, num, date)
    ensures forall k :: first <= k < later ==> SampleQuizAt(r, k, SampleNumberAt(1, first, k), authorId, num, date)
  {
  }

  /** Counting from 1, generated quiz number `n` takes the `n`-th new id. */
  lemma SampleQuizzesNumbered(s: Store, authorId: string, num: int, date: int)
    requires authorId in s.users
    requires forall k :: k in s.quizzes ==> k < s.next.quiz
    ensures var r := SampleQuizzes(s, authorId, 1, num, date);
      forall k :: s.next.quiz <= k < r.next.quiz ==>
        SampleQuizAt(r, k, SampleNumberAt(1, s.next.quiz, k), authorId, num, date)
  {
    var r := SampleQuizzes(s, authorId, 1, num, date);
    SampleQuizzesQuizRows(s, authorId, 1, num, date, s.next.quiz - 1);
    SampleRowsRenumbered(r, s.next.quiz, r.next.quiz, s.next.quiz - 1, authorId, num, date);
  }

  /** Keys of a table grown by a block of ids and then by three more. */
  lemma GrownKeys(a: map<int, Quiz>, b: map<int, Quiz>, c: map<int, Quiz>, first: int, later: int)
    requires first <= later
    requires forall k :: k in b <==> k in a || first <= k < later
    requires forall k :: k in c <==> k in b || later <= k < later + 3
    ensures c.Keys == a.Keys + Range(first, later + 3)
  {
  }

  /** A table grown by ids above all of its own has that many more rows. */
  lemma GrownSize(a: map<int, Quiz>, c: map<int, Quiz>, first: int, hi: int)
    requires forall k :: k in a ==> k < first
    requires first <= hi
    requires c.Keys == a.Keys + Range(first, hi)
    ensures |c| == |a| + (hi - first)
  {
    assert a.Keys * Range(first, hi) == {};
    assert |c.Keys| == |a.Keys| + |Range(first, hi)|;
  }

  /** A table grown by three ids after the generated quizzes keeps every
      row below them. */
  lemma GrownAfterSamples(s: Store, s1: Store, r: Store, authorId: string, num: int, date: int)
    requires forall k :: k in s.quizzes ==> k < s.next.quiz
    requires s.next.quiz <= s1.next.quiz
    requires forall k :: k in s1.quizzes <==> k in s.quizzes || s.next.quiz <= k < s1.next.quiz
    requires forall k :: k in s.quizzes ==> k in s1.quizzes && s1.quizzes[k] == s.quizzes[k]
    requires forall k :: s.next.quiz <= k < s1.next.quiz ==>
      SampleQuizAt(s1, k, SampleNumberAt(1, s.next.quiz, k), authorId, num, date)
    requires forall k :: k in r.quizzes <==> k in s1.quizzes || s1.next.quiz <= k < s1.next.quiz + 3
    requires forall k :: k in s1.quizzes && !(s1.next.quiz <= k < s1.next.quiz + 3) ==> r.quizzes[k] == s1.quizzes[k]
    ensures r.quizzes.Keys == s.quizzes.Keys + Range(s.next.quiz, s1.next.quiz + 3)
    ensures forall k :: k in s.quizzes ==> r.quizzes[k] == s.quizzes[k]
    ensures forall k :: s.next.quiz <= k < s1.next.quiz ==>
      SampleQuizAt(r, k, SampleNumberAt(1, s.next.quiz, k), authorId, num, date)
  {
    GrownKeys(s.quizzes, s1.quizzes, r.quizzes, s.next.quiz, s1.next.quiz);
    SampleRowsKept(s1, r, s.next.quiz, s1.next.quiz, authorId, num, date);
  }

  /** Three quizzes added after the generated ones keep every row below
      them. */
  lemma NamedAfterSamples(s: Store, s1: Store, authorId: string, named: seq<Quiz>, num: int, date: int)
    requires authorId in s1.users && |named| == 3 && ByAuthor(named, authorId)
    requires forall k :: k in s.quizzes ==> k < s.next.quiz
    requires s.next.quiz <= s1.next.quiz
    requires forall k :: k in s1.quizzes <==> k in s.quizzes || s.next.quiz <= k < s1.next.quiz
    requires forall k :: k in s.quizzes ==> k in s1.quizzes && s1.quizzes[k] == s.quizzes[k]
    requires forall k :: s.next.quiz <= k < s1.next.quiz ==>
      SampleQuizAt(s1, k, SampleNumberAt(1, s.next.quiz, k), authorId, num, date)
    ensures var r := AddThreeQuizzes(s1, authorId, named);
      r.quizzes.Keys == s.quizzes.Keys + Range(s.next.quiz, s1.next.quiz + 3)
    ensures var r := AddThreeQuizzes(s1, authorId, named);
      forall k :: k in s.quizzes ==> r.quizzes[k] == s.quizzes[k]
    ensures var r := AddThreeQuizzes(s1, authorId, named);
      forall k :: s.next.quiz <= k < s1.next.quiz ==>
        SampleQuizAt(r, k, SampleNumberAt(1, s.next.quiz, k), authorId, num, date)
  {
    GrownAfterSamples(s, s1, AddThreeQuizzes(s1, authorId, named), authorId, num, date);
  }

  /** The quiz table AuthorQuizzes leaves below the named quizzes: the
      quizzes already there stay and generated quiz number `n` takes the
      `n`-th new id. */
  lemma AuthorQuizzesRows(s: Store, num: int, date: int, authorId: string, named: seq<Quiz>)
    requires KeysBelowIdentity(s) && authorId in s.users && |named| == 3 && ByAuthor(named, authorId)
    ensures var r := AuthorQuizzes(s, num, date, authorId, named);
      r.quizzes.Keys == s.quizzes.Keys + Range(s.next.quiz, s.next.quiz + Count(1, num + 1) + 3)
    ensures var r := AuthorQuizzes(s, num, date, authorId, named);
      forall k :: k in s.quizzes ==> r.quizzes[k] == s.quizzes[k]
    ensures var r := AuthorQuizzes(s, num, date, authorId, named);
      forall k :: s.next.quiz <= k < s.next.quiz + Count(1, num + 1) ==>
        SampleQuizAt(r, k, SampleNumberAt(1, s.next.quiz, k), authorId, num, date)
  {
    SampleQuizzesKeys(s, authorId, 1, num, date);
    SampleQuizzesKeepQuizzes(s, authorId, 1, num, date);
    SampleQuizzesNumbered(s, authorId, num, date);
    NamedAfterSamples(s, SampleQuizzes(s, authorId, 1, num, date), authorId, named, num, date);
  }

  /** The named quizzes take the three ids after the generated ones, in
      order. */
  lemma AuthorQuizzesNamedRow(s: Store, num: int, date: int, authorId: string, named: seq<Quiz>, i: int, id: int)
    requires authorId in s.users && |named| == 3 && ByAuthor(named, authorId) && 0 <= i < 3
    requires id == s.next.quiz + Count(1, num + 1) + i
    ensures var r := AuthorQuizzes(s, num, date, authorId, named);
      id in r.quizzes && r.quizzes[id] == named[i].(id := id)
  {
    AddThreeQuizzesRow(SampleQuizzes(s, authorId, 1, num, date), authorId, named, i, id);
  }

  /** Named quiz `i` is stored under the `i`-th id after the ones in use. */
  lemma AddThreeQuizzesRow(s: Store, authorId: string, named: seq<Quiz>, i: int, id: int)
    requires authorId in s.users && |named| == 3 && ByAuthor(named, authorId) && 0 <= i < 3
    requires id == s.next.quiz + i
    ensures var r := AddThreeQuizzes(s, authorId, named);
      id in r.quizzes && r.quizzes[id] == named[i].(id := id)
  {
    NamedRowAt(s, AddThreeQuizzes(s, authorId, named), named, i, id);
  }

  lemma NamedRowAt(s: Store, r: Store, named: seq<Quiz>, i: int, id: int)
    requires |named| == 3 && 0 <= i < 3 && id == s.next.quiz + i
    requires forall k :: k in r.quizzes <==> k in s.quizzes || s.next.quiz <= k < s.next.quiz + 3
    requires forall j :: 0 <= j < 3 ==> r.quizzes[s.next.quiz + j] == named[j].(id := s.next.quiz + j)
    ensures id in r.quizzes && r.quizzes[id] == named[i].(id := id)
  {
  }

  /** Generated quizzes followed by named quizzes, all by one author, are
      all by that author. */
  lemma NewRowsByAuthor(s: Store, s1: Store, authorId: string, named: seq<Quiz>, num: int, date: int)
    requires authorId in s1.users && |named| == 3 && ByAuthor(named, authorId)
    requires forall k :: k in s1.quizzes <==> k in s.quizzes || s.next.quiz <= k < s1.next.quiz
    requires forall k :: s.next.quiz <= k < s1.next.quiz ==>
      SampleQuizAt(s1, k, SampleNumberAt(1, s.next.quiz, k), authorId, num, date)
    ensures var r := AddThreeQuizzes(s1, authorId, named);
      forall k :: k in r.quizzes && k !in s.quizzes ==> r.quizzes[k].userId == Some(authorId)
  {
    var r := AddThreeQuizzes(s1, authorId, named);
    forall k | k in r.quizzes && k !in s.quizzes ensures r.quizzes[k].userId == Some(authorId) {
      if s1.next.quiz <= k < s1.next.quiz + 3 {
        assert r.quizzes[s1.next.quiz + (k - s1.next.quiz)] == named[k - s1.next.quiz].(id := k);
      } else {
        assert SampleQuizAt(s1, k, SampleNumberAt(1, s.next.quiz, k), authorId, num, date);
      }
    }
  }

  /** Every quiz AuthorQuizzes adds is written by the author. */
  lemma AuthorQuizzesByAuthor(s: Store, num: int, date: int, authorId: string, named: seq<Quiz>)
    requires KeysBelowIdentity(s) && authorId in s.users && |named| == 3 && ByAuthor(named, authorId)
    ensures var r := AuthorQuizzes(s, num, date, authorId, named);
      forall k :: k in r.quizzes && k !in s.quizzes ==> r.quizzes[k].userId == Some(authorId)
  {
    SampleQuizzesKeys(s, authorId, 1, num, date);
    SampleQuizzesNumbered(s, authorId, num, date);
    NewRowsByAuthor(s, SampleQuizzes(s, authorId, 1, num, date), authorId, named, num, date);
  }

  /** AuthorQuizzes adds `num` + 3 quizzes. */
  lemma AuthorQuizzesCount(s: Store, num: int, date: int, authorId: string, named: seq<Quiz>)
    requires KeysBelowIdentity(s) && authorId in s.users && |named| == 3 && ByAuthor(named, authorId)
    ensures |AuthorQuizzes(s, num, date, authorId, named).quizzes| == |s.quizzes| + Count(1, num + 1) + 3
  {
    SampleQuizzesKeys(s, authorId, 1, num, date);
    NamedAfterSamplesCount(s, SampleQuizzes(s, authorId, 1, num, date), authorId, named);
  }

  /** Three quizzes added after rows grown above all old ids make that many
      more rows. */
  lemma NamedAfterSamplesCount(s: Store, s1: Store, authorId: string, named: seq<Quiz>)
    requires authorId in s1.users && |named| == 3 && ByAuthor(named, authorId)
    requires forall k :: k in s.quizzes ==> k < s.next.quiz
    requires s.next.quiz <= s1.next.quiz
    requires forall k :: k in s1.quizzes <==> k in s.quizzes || s.next.quiz <= k < s1.next.quiz
    ensures |AddThreeQuizzes(s1, authorId, named).quizzes| == |s.quizzes| + (s1.next.quiz - s.next.quiz) + 3
  {
    var r := AddThreeQuizzes(s1, authorId, named);
    GrownKeys(s.quizzes, s1.quizzes, r.quizzes, s.next.quiz, s1.next.quiz);
    GrownSize(s.quizzes, r.quizzes, s.next.quiz, s1.next.quiz + 3);
  }

  lemma AuthorQuizzesPreservesConsistency(s: Store, num: int, date: int, authorId: string, named: seq<Quiz>)
    requires Consistent(s) && authorId in s.users && |named| == 3 && ByAuthor(named, authorId)
    ensures Consistent(AuthorQuizzes(s, num, date, authorId, named))
  {
    SampleQuizzesPreserveConsistency(s, authorId, 1, num, date);
    AddThreeQuizzesPreservesConsistency(SampleQuizzes(s, authorId, 1, num, date), authorId, named);
  }

  /** The named quizzes are always added, so the quiz table is never left empty. */
  lemma AuthorQuizzesNotEmpty(s: Store, num: int, date: int, authorId: string, named: seq<Quiz>)
    requires authorId in s.users && |named| == 3 && ByAuthor(named, authorId)
    ensures AuthorQuizzes(s, num, date, authorId, named).quizzes != map[]
  {
    var s1 := SampleQuizzes(s, authorId, 1, num, date);
    assert s1.next.quiz in AddThreeQuizzes(s1, authorId, named).quizzes;
  }

  /** The quiz under the `n`-th new id is generated quiz number `n` with
      its questions, answers and results. */
  lemma AuthorQuizzesSampleShape(s: Store, num: int, date: int, authorId: string, named: seq<Quiz>, k: int)
    requires Consistent(s) && authorId in s.users && |named| == 3 && ByAuthor(named, authorId)
    requires s.next.quiz <= k < s.next.quiz + Count(1, num + 1)
    ensures var n := SampleNumberAt(1, s.next.quiz, k);
      IsSampleQuiz(AuthorQuizzes(s, num, date, authorId, named), k, n, authorId, SampleViewCount(num, n),
                   3, 3, 3, date)
  {
    var n := SampleNumberAt(1, s.next.quiz, k);
    var s1 := SampleQuizzes(s, authorId, 1, num, date);
    SampleQuizzesShape(s, authorId, 1, num, date, k, n);
    SampleQuizzesPreserveConsistency(s, authorId, 1, num, date);
    AddThreeQuizzesAddsBelowNew(s1, authorId, named);
    SampleQuizFrame(s1, AddThreeQuizzes(s1, authorId, named), k, n, authorId, SampleViewCount(num, n),
                    3, 3, 3, date);
  }

  /** With an Admin account, CreateQuizzes is AuthorQuizzes with the Admin
      as author and 47 generated quizzes in a DEBUG build, none otherwise. */
  lemma CreateQuizzesByAdmin(s: Store, debug: bool, now: int)
    requires AdminId(s).Some?
    ensures var author := AdminId(s).value;
      CreateQuizzes(s, debug, now) == Some(AuthorQuizzes(s, SampleQuizTotal(debug), SampleDate, author, NamedQuizzes(author, now)))
    ensures Count(1, SampleQuizTotal(debug) + 1) == SampleQuizTotal(debug)
  {
  }

  /** The quiz table AuthorQuizzes leaves, in one statement. */
  lemma AuthorQuizzesTable(s: Store, num: int, date: int, authorId: string, named: seq<Quiz>)
    requires KeysBelowIdentity(s) && authorId in s.users && |named| == 3 && ByAuthor(named, authorId)
    ensures var r := AuthorQuizzes(s, num, date, authorId, named);
      && r.quizzes.Keys == s.quizzes.Keys + Range(s.next.quiz, s.next.quiz + Count(1, num + 1) + 3)
      && |r.quizzes| == |s.quizzes| + Count(1, num + 1) + 3
      && (forall k :: k in s.quizzes ==> r.quizzes[k] == s.quizzes[k])
      && (forall k :: k in r.quizzes && k !in s.quizzes ==> r.quizzes[k].userId == Some(authorId))
  {
    AuthorQuizzesRows(s, num, date, authorId, named);
    AuthorQuizzesCount(s, num, date, authorId, named);
    AuthorQuizzesByAuthor(s, num, date, authorId, named);
  }

  /** What CreateQuizzes does to the quiz table: the quizzes already there
      stay and 3 quizzes are added, 50 in a DEBUG build, all by the Admin
      account. */
  lemma CreateQuizzesRows(s: Store, debug: bool, now: int)
    requires KeysBelowIdentity(s) && AdminId(s).Some?
    ensures var r := CreateQuizzes(s, debug, now).value;
      && r.quizzes.Keys == s.quizzes.Keys + Range(s.next.quiz, s.next.quiz + SampleQuizTotal(debug) + 3)
      && |r.quizzes| == |s.quizzes| + SampleQuizTotal(debug) + 3
      && (forall k :: k in s.quizzes ==> r.quizzes[k] == s.quizzes[k])
      && (forall k :: k in r.quizzes && k !in s.quizzes ==> r.quizzes[k].userId == AdminId(s))
  {
    CreateQuizzesByAdmin(s, debug, now);
    AuthorQuizzesTable(s, SampleQuizTotal(debug), SampleDate, AdminId(s).value, NamedQuizzes(AdminId(s).value, now));
  }

  /** Generated quiz number `n` takes the `n`-th new id and has ViewCount
      47 - n; there are 47 in a DEBUG build and none otherwise. */
  lemma CreateQuizzesSampleRows(s: Store, debug: bool, now: int)
    requires KeysBelowIdentity(s) && AdminId(s).Some?
    ensures var r := CreateQuizzes(s, debug, now).value;
      forall k :: s.next.quiz <= k < s.next.quiz + SampleQuizTotal(debug) ==>
        SampleQuizAt(r, k, SampleNumberAt(1, s.next.quiz, k), AdminId(s).value, SampleQuizTotal(debug), SampleDate)
  {
    CreateQuizzesByAdmin(s, debug, now);
    var author := AdminId(s).value;
    AuthorQuizzesRows(s, SampleQuizTotal(debug), SampleDate, author, NamedQuizzes(author, now));
  }

  lemma CreateQuizzesPreservesConsistency(s: Store, debug: bool, now: int)
    requires Consistent(s)
    ensures CreateQuizzes(s, debug, now).Some? ==> Consistent(CreateQuizzes(s, debug, now).value)
  {
    if AdminId(s).Some? {
      var author := AdminId(s).value;
      AuthorQuizzesPreservesConsistency(s, SampleQuizTotal(debug), SampleDate, author, NamedQuizzes(author, now));
    }
  }

  /** The quiz CreateQuizzes stores under the `n`-th new id, for each of
      the generated quizzes (47 in a DEBUG build, none otherwise), is
      generated quiz number `n`, by the Admin account, with ViewCount
      47 - n, three questions of three answers valued 0, 1, 2, and three
      results ranging from 0 to 6, every row dated 47 days before the seed
      date. */
  lemma CreateQuizzesSampleShape(s: Store, debug: bool, now: int, k: int)
    requires Consistent(s) && AdminId(s).Some?
    requires s.next.quiz <= k < s.next.quiz + SampleQuizTotal(debug)
    ensures var n := SampleNumberAt(1, s.next.quiz, k);
      IsSampleQuiz(CreateQuizzes(s, debug, now).value, k, n, AdminId(s).value,
                   SampleViewCount(SampleQuizTotal(debug), n), 3, 3, 3, SampleDate)
  {
    CreateQuizzesByAdmin(s, debug, now);
    var author := AdminId(s).value;
    AuthorQuizzesSampleShape(s, SampleQuizTotal(debug), SampleDate, author, NamedQuizzes(author, now), k);
  }

  // ---------------------------------------------------------------------
  // Seed

  /** The first step of Seed: the accounts, if there are none. `None` when
      the save fails on a GUID clash. */
  function SeedUsers(s: Store, debug: bool, ids: seq<string>, now: int): (r: Option<Store>)
    requires |ids| == 4
    ensures r.Some? ==> r.value.users != map[] && r.value.quizzes == s.quizzes
    ensures s.users != map[] ==> r == Some(s)
  {
    if s.users == map[] then
      CreateUsersAdds(s, debug, ids, now);
      if CreateUsers(s, debug, ids, now).Some? then
        assert ids[0] in CreateUsers(s, debug, ids, now).value.users;
        CreateUsers(s, debug, ids, now)
      else None
    else Some(s)
  }

  /** Seed: the accounts if there are none, then the quizzes if there are
      none. `None` when a step fails: a GUID clash, or no Admin account
      when quizzes are due. Each step reads the clock itself: `usersNow` is
      the reading CreateUsers takes and `quizzesNow` the one CreateQuizzes
      takes. */
  function Seed(s: Store, debug: bool, ids: seq<string>, usersNow: int, quizzesNow: int): (r: Option<Store>)
    requires |ids| == 4
    ensures s.users != map[] && s.quizzes != map[] ==> r == Some(s)
    ensures r.Some? ==> r.value.users != map[] && r.value.quizzes != map[]
  {
    match SeedUsers(s, debug, ids, usersNow)
    case None => None
    case Some(s1) => if s1.quizzes == map[] then CreateQuizzes(s1, debug, quizzesNow) else Some(s1)
  }

  /** Seeding leaves the store as it is exactly when it already has both
      accounts and quizzes. */
  lemma SeedChangesNothingIff(s: Store, debug: bool, ids: seq<string>, usersNow: int, quizzesNow: int)
    requires |ids| == 4
    ensures Seed(s, debug, ids, usersNow, quizzesNow) == Some(s) <==> s.users != map[] && s.quizzes != map[]
  {
  }

  /** A seeded store has accounts and quizzes, so seeding it again, with
      any build flag, GUIDs or clock, changes nothing. */
  lemma SeedIdempotent(s: Store, debug: bool, ids: seq<string>, usersNow: int, quizzesNow: int,
                       debug2: bool, ids2: seq<string>, usersNow2: int, quizzesNow2: int)
    requires |ids| == 4 && |ids2| == 4
    requires Seed(s, debug, ids, usersNow, quizzesNow).Some?
    ensures Seed(Seed(s, debug, ids, usersNow, quizzesNow).value, debug2, ids2, usersNow2, quizzesNow2)
            == Seed(s, debug, ids, usersNow, quizzesNow)
  {
  }

  lemma SeedPreservesConsistency(s: Store, debug: bool, ids: seq<string>, usersNow: int, quizzesNow: int)
    requires |ids| == 4 && Consistent(s)
    ensures Seed(s, debug, ids, usersNow, quizzesNow).Some? ==> Consistent(Seed(s, debug, ids, usersNow, quizzesNow).value)
  {
    SeedUsersPreservesConsistency(s, debug, ids, usersNow);
    var s1 := SeedUsers(s, debug, ids, usersNow);
    if s1.Some? {
      CreateQuizzesPreservesConsistency(s1.value, debug, quizzesNow);
    }
  }

  lemma SeedUsersPreservesConsistency(s: Store, debug: bool, ids: seq<string>, now: int)
    requires |ids| == 4 && Consistent(s)
    ensures SeedUsers(s, debug, ids, now).Some? ==> Consistent(SeedUsers(s, debug, ids, now).value)
  {
    if s.users == map[] {
      InsertUsersPreservesConsistency(s, SeedAccounts(debug, ids, now));
    }
  }

  lemma FourDistinct(a: string, b: string, c: string, d: string)
    requires a != b && a != c && a != d && b != c && b != d && c != d
    ensures |{a, b, c, d}| == 4
  {
    assert {a, b, c, d} == {a} + {b} + {c} + {d};
  }

  /** The accounts Seed creates in an empty database from fresh GUIDs. */
  lemma SeedUsersEmpty(debug: bool, ids: seq<string>, now: int)
    requires |ids| == 4 && FreshIds(EmptyStore, debug, ids)
    ensures SeedUsers(EmptyStore, debug, ids, now).Some?
    ensures var s1 := SeedUsers(EmptyStore, debug, ids, now).value;
      && Consistent(s1)
      && s1 == EmptyStore.(users := s1.users)
      && |s1.users| == (if debug then 4 else 1)
      && AdminId(s1) == Some(ids[0])
      && s1.users[ids[0]] == SeedAccount(ids[0], AdminName, "admin@testmakerfree.com", now)
  {
    var s := EmptyStore;
    CreateUsersAdds(s, debug, ids, now);
    CreateUsersAdmin(s, debug, ids, now);
    var s1 := CreateUsers(s, debug, ids, now).value;
    if debug {
      assert s1.users.Keys == {ids[0], ids[1], ids[2], ids[3]};
      FourDistinct(ids[0], ids[1], ids[2], ids[3]);
    } else {
      assert s1.users.Keys == {ids[0]};
    }
    EmptyStoreIsConsistent();
    InsertUsersPreservesConsistency(s, SeedAccounts(debug, ids, now));
  }

  /** On an empty database Seed's second step runs on the accounts of the
      first. */
  lemma SeedEmptySteps(debug: bool, ids: seq<string>, usersNow: int, quizzesNow: int)
    requires |ids| == 4 && FreshIds(EmptyStore, debug, ids)
    ensures SeedUsers(EmptyStore, debug, ids, usersNow).Some?
    ensures var s1 := SeedUsers(EmptyStore, debug, ids, usersNow).value;
      && Consistent(s1) && s1.next.quiz == 1 && AdminId(s1) == Some(ids[0])
      && Seed(EmptyStore, debug, ids, usersNow, quizzesNow) == CreateQuizzes(s1, debug, quizzesNow)
  {
    SeedUsersEmpty(debug, ids, usersNow);
  }

  /** CreateQuizzes on a database that never held a quiz numbers the new
      quizzes from 1. */
  lemma CreateQuizzesFirst(s: Store, debug: bool, now: int)
    requires KeysBelowIdentity(s) && AdminId(s).Some? && s.quizzes == map[] && s.next.quiz == 1
    ensures CreateQuizzes(s, debug, now).value.quizzes.Keys == Range(1, SampleQuizTotal(debug) + 4)
  {
    CreateQuizzesRows(s, debug, now);
  }

  /** Seeding an empty database with fresh GUIDs succeeds and leaves a
      consistent database holding the Admin account, plus three sample
      accounts in a DEBUG build. */
  lemma SeedEmpty(debug: bool, ids: seq<string>, usersNow: int, quizzesNow: int)
    requires |ids| == 4 && FreshIds(EmptyStore, debug, ids)
    ensures Seed(EmptyStore, debug, ids, usersNow, quizzesNow).Some?
    ensures var r := Seed(EmptyStore, debug, ids, usersNow, quizzesNow).value;
      && Consistent(r)
      && |r.users| == (if debug then 4 else 1)
      && AdminId(r) == Some(ids[0])
      && r.users[ids[0]] == SeedAccount(ids[0], AdminName, "admin@testmakerfree.com", usersNow)
  {
    SeedEmptySteps(debug, ids, usersNow, quizzesNow);
    SeedUsersEmpty(debug, ids, usersNow);
    var s1 := SeedUsers(EmptyStore, debug, ids, usersNow).value;
    CreateQuizzesPreservesConsistency(s1, debug, quizzesNow);
    assert Seed(EmptyStore, debug, ids, usersNow, quizzesNow).value.users == s1.users;
  }

  /** The quizzes of a freshly seeded database: ids 1 to 3, or 1 to 50 in a
      DEBUG build, all by the Admin account. */
  lemma SeedEmptyQuizzes(debug: bool, ids: seq<string>, usersNow: int, quizzesNow: int)
    requires |ids| == 4 && FreshIds(EmptyStore, debug, ids)
    ensures Seed(EmptyStore, debug, ids, usersNow, quizzesNow).Some?
    ensures var r := Seed(EmptyStore, debug, ids, usersNow, quizzesNow).value;
      && r.quizzes.Keys == Range(1, SampleQuizTotal(debug) + 4)
      && |r.quizzes| == SampleQuizTotal(debug) + 3
      && (forall k :: k in r.quizzes ==> r.quizzes[k].userId == Some(ids[0]))
  {
    SeedEmptySteps(debug, ids, usersNow, quizzesNow);
    var s1 := SeedUsers(EmptyStore, debug, ids, usersNow).value;
    CreateQuizzesFirst(s1, debug, quizzesNow);
    CreateQuizzesRows(s1, debug, quizzesNow);
  }

  /** A generated quiz found in one store is found in an equal one, under
      its number written out. */
  lemma SampleQuizTransfer(a: Option<Store>, b: Option<Store>, k: int, n: int, authorId: string, viewCount: int,
                           total: int, date: int)
    requires a == b && b.Some? && n == k && viewCount == SampleViewCount(total, n)
    requires IsSampleQuiz(b.value, k, n, authorId, viewCount, 3, 3, 3, date)
    ensures a.Some? && IsSampleQuiz(a.value, k, k, authorId, total - k, 3, 3, 3, date)
  {
  }

  /** Seeding an empty database stores generated quiz number `k` under id
      `k`, for each of the generated quizzes (k = 1, ..., 47 in a DEBUG
      build, none otherwise): titled "Quiz k Title", by the Admin, with
      ViewCount 47 - k, and its questions, answers and results. */
  lemma SeedEmptySampleQuiz(debug: bool, ids: seq<string>, usersNow: int, quizzesNow: int, k: int)
    requires |ids| == 4 && FreshIds(EmptyStore, debug, ids)
    requires 1 <= k <= SampleQuizTotal(debug)
    ensures Seed(EmptyStore, debug, ids, usersNow, quizzesNow).Some?
    ensures IsSampleQuiz(Seed(EmptyStore, debug, ids, usersNow, quizzesNow).value, k, k, ids[0], SampleQuizTotal(debug) - k,
                         3, 3, 3, SampleDate)
  {
    SeedEmptySteps(debug, ids, usersNow, quizzesNow);
    var s1 := SeedUsers(EmptyStore, debug, ids, usersNow).value;
    var n := SampleNumberAt(1, s1.next.quiz, k);
    CreateQuizzesSampleShape(s1, debug, quizzesNow, k);
    SampleQuizTransfer(Seed(EmptyStore, debug, ids, usersNow, quizzesNow), CreateQuizzes(s1, debug, quizzesNow), k, n, ids[0],
                       SampleViewCount(SampleQuizTotal(debug), n), SampleQuizTotal(debug), SampleDate);
  }
}
