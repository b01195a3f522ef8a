# TestMakerFree quiz store, modelled in Dafny

TestMakerFree is an ASP.NET Core quiz maker: users own quizzes, quizzes own
questions and results, and questions own answers. This project models its
relational store and the rules the Web API controllers apply to it:

- `Entities` (entities.dfy) holds the five entity records and their column
  rules. Required strings are `Option`s that must be `Some`, and UserName has
  a 128-character cap.
- `Migration` (migration.dfy) holds the initial migration as a schema
  catalog:
  - `Up` creates five tables with cascading foreign keys and four indexes;
  - `Down` drops the tables, children before parents;
  - each entity record fits its table's columns exactly when it is valid.
- `Database` (database.dfy) holds the store as five maps from key to row,
  plus the next value of each identity column.
  - Inserts and updates are checked against NOT NULL, the length cap, the
    foreign keys and the primary key. A refused write changes nothing.
  - Deletes cascade along the foreign keys.
  - `Consistent` is the invariant every committed state keeps: keys match
    row ids, rows are valid, references resolve, and keys stay below the
    identity counters.
- `Api` (api.dfy) holds the HTTP responses, the 404 message format and
  SaveChanges.
- The controllers are `QuizController`, `QuestionController`,
  `AnswerController` and `ResultController`.
  - Every action is a pure function from the store and request (plus the
    clock, where it is read) to the new store and the response.
  - A `None` payload is a body that did not bind.
- `Order` (order.dfy) holds the LINQ `OrderBy`/`Take` the Quiz list queries
  use: a sort by a total preorder, then a prefix.
- `DbSeeder` (seeder.dfy) models the database seeder as a generator from
  store to store:
  - the "only if empty" guards;
  - the Admin account and the three DEBUG accounts;
  - the 47 generated DEBUG quizzes and the three named quizzes;
  - the shape of each generated quiz.
- `Base` (base.dfy) holds `Option` and decimal integer formatting and
  parsing.

Inputs the program takes from the environment are parameters:

- `DateTime.Now` is `now`. CreateUsers and CreateQuizzes each read the clock on their own, so `DbSeeder.Seed` takes one reading per step: `usersNow` and `quizzesNow`. Dates are integer seconds since 0001-01-01.
- The GUIDs drawn for new accounts are `ids`.
- The GUID `Random` draws for each quiz is `guid`.
- The `#if DEBUG` switch is `debug`.

The long literal texts of the seeder are written as concatenations of
shorter literals with the same content.

## Model

| member | source | states |
|---|---|---|
| Migration.UserFitsTable | TestMakerFreeWebApp/Data/Models/ApplicationUser.cs:16-41 | A user row fits Users_t exactly when Id, UserName (at most 128 characters) and Email are present; DisplayName and Notes may be null; Type, Flags and both dates are always present |
| Migration.QuizFitsTable | TestMakerFreeWebApp/Data/Migrations/20180408181153_inital.cs:35-46 | A quiz row fits Quizzes_t exactly when UserId and Title are present; Description, Text and Notes may be null |
| Migration.QuestionFitsTable | TestMakerFreeWebApp/Data/Migrations/20180408181153_inital.cs:63-71 | A question row fits Questions_t exactly when Text is present; Notes may be null |
| Migration.ResultFitsTable | TestMakerFreeWebApp/Data/Migrations/20180408181153_inital.cs:88-98 | A result row fits Result_t exactly when Text is present; MinValue, MaxValue and Notes are each optional, with no order between the bounds |
| Migration.AnswerFitsTable | TestMakerFreeWebApp/Data/Migrations/20180408181153_inital.cs:115-124 | An answer row fits Answer_t exactly when Text is present; Value is a mandatory int |
| Migration.Apply | TestMakerFreeWebApp/Data/Migrations/20180408181153_inital.cs:12-173 | An accepted CreateTable has every foreign key resolved to an existing table's key; an accepted DropTable names an existing table that no other table references |
| Migration.UpBuildsSchema | TestMakerFreeWebApp/Data/Migrations/20180408181153_inital.cs:10-156 | Up on an empty database is accepted step by step and yields exactly the five tables and four indexes |
| Migration.ForeignKeysCascade | TestMakerFreeWebApp/Data/Migrations/20180408181153_inital.cs:51-56 | Every foreign key cascades deletes, and the references are exactly Quiz to User, Question to Quiz, Result to Quiz and Answer to Question |
| Migration.DownUndoesUp | TestMakerFreeWebApp/Data/Migrations/20180408181153_inital.cs:158-174 | Down after Up drops Answer, Result, Question, Quiz and User in that order, each accepted, leaving an empty catalog |
| Migration.DropLeaves | TestMakerFreeWebApp/Data/Migrations/20180408181153_inital.cs:160-161 | Dropping a table nothing references removes it and exactly the indexes on it |
| Migration.ParentFirstIsRefused | TestMakerFreeWebApp/Data/Migrations/20180408181153_inital.cs:172-173 | Dropping Users_t while Quizzes_t still refers to it is refused, so Down's order is necessary |
| Database.EmptyStoreIsConsistent | TestMakerFreeWebApp/Data/ApplicationDbContext.cs:48-52 | The empty database satisfies every integrity rule |
| Database.OwnershipIsExclusive | TestMakerFreeWebApp/Data/ApplicationDbContext.cs:25-43 | In a consistent store each quiz is in the quiz collection of exactly one user, each question and result in that of exactly one quiz, and each answer in that of exactly one question |
| Database.Scan | TestMakerFreeWebApp/Controllers/QuestionController.cs:144-146 | A table scan returns one row per selected key, each selected row and nothing else |
| Database.InsertUser | TestMakerFreeWebApp/Data/Models/ApplicationUser.cs:16-25 | A user is stored under its own id exactly when it is valid and the id is unused; otherwise the violated constraint is reported and nothing is written |
| Database.InsertQuiz | TestMakerFreeWebApp/Data/ApplicationDbContext.cs:28-29 | A quiz is stored exactly when valid and its user exists; it gets the next identity value as its id and the counter advances |
| Database.InsertQuestion | TestMakerFreeWebApp/Data/ApplicationDbContext.cs:33-34 | A question is stored exactly when valid and its quiz exists, under the next identity value |
| Database.InsertAnswer | TestMakerFreeWebApp/Data/ApplicationDbContext.cs:38-39 | An answer is stored exactly when valid and its question exists, under the next identity value |
| Database.InsertResult | TestMakerFreeWebApp/Data/ApplicationDbContext.cs:42-43 | A result is stored exactly when valid and its quiz exists, under the next identity value; no order of MinValue and MaxValue is checked |
| Database.InsertQuizPreservesConsistency | TestMakerFreeWebApp/Data/ApplicationDbContext.cs:28 | An accepted quiz insert takes an id not in use and keeps the store consistent |
| Database.InsertQuestionPreservesConsistency | TestMakerFreeWebApp/Data/ApplicationDbContext.cs:33 | An accepted question insert takes an id not in use and keeps the store consistent |
| Database.InsertAnswerPreservesConsistency | TestMakerFreeWebApp/Data/ApplicationDbContext.cs:38 | An accepted answer insert takes an id not in use and keeps the store consistent |
| Database.InsertResultPreservesConsistency | TestMakerFreeWebApp/Data/ApplicationDbContext.cs:42 | An accepted result insert takes an id not in use and keeps the store consistent |
| Database.InsertUserPreservesConsistency | TestMakerFreeWebApp/Data/Models/ApplicationUser.cs:16-18 | An accepted user insert keeps the store consistent |
| Database.UpdateQuestion | TestMakerFreeWebApp/Data/Migrations/20180408181153_inital.cs:70-81 | Rewriting a question is accepted exactly when the new row is valid and its quiz exists, and then replaces only that row |
| Database.UpdateAnswer | TestMakerFreeWebApp/Data/Migrations/20180408181153_inital.cs:121-134 | Rewriting an answer is accepted exactly when the new row is valid and its question exists, and then replaces only that row |
| Database.UpdateResult | TestMakerFreeWebApp/Data/Migrations/20180408181153_inital.cs:96-108 | Rewriting a result is accepted exactly when the new row is valid and its quiz exists, and then replaces only that row |
| Database.UpdateQuestionPreservesConsistency | TestMakerFreeWebApp/Data/Migrations/20180408181153_inital.cs:76-81 | An accepted question update keeps every reference resolved |
| Database.UpdateAnswerPreservesConsistency | TestMakerFreeWebApp/Data/Migrations/20180408181153_inital.cs:129-134 | An accepted answer update keeps every reference resolved |
| Database.UpdateResultPreservesConsistency | TestMakerFreeWebApp/Data/Migrations/20180408181153_inital.cs:103-108 | An accepted result update keeps every reference resolved |
| Database.RemoveQuestion | TestMakerFreeWebApp/Data/Migrations/20180408181153_inital.cs:129-134 | Deleting a question removes it and exactly the answers whose QuestionId is that question; every surviving question and answer keeps its values and the other tables are unchanged |
| Database.RemoveQuiz | TestMakerFreeWebApp/Data/Migrations/20180408181153_inital.cs:76-108 | Deleting a quiz removes it, exactly its questions and results, and exactly the answers of those questions; every surviving row keeps its values, and users and identities are unchanged |
| Database.RemoveUser | TestMakerFreeWebApp/Data/Migrations/20180408181153_inital.cs:51-56 | Deleting a user removes it, exactly its quizzes, and every question, result and answer below them; every surviving row keeps its values and identities are unchanged |
| Database.RemoveAnswer | TestMakerFreeWebApp/Controllers/AnswerController.cs:130-131 | Deleting an answer removes only that row |
| Database.RemoveResult | TestMakerFreeWebApp/Controllers/ResultController.cs:124-125 | Deleting a result removes only that row |
| Database.RemoveLeafPreservesConsistency | TestMakerFreeWebApp/Data/Migrations/20180408181153_inital.cs:103-134 | Deleting an answer or a result keeps the store consistent |
| Database.RemoveQuestionPreservesConsistency | TestMakerFreeWebApp/Data/Migrations/20180408181153_inital.cs:129-134 | After a question delete no answer refers to a missing question |
| Database.RemoveQuizPreservesConsistency | TestMakerFreeWebApp/Data/Migrations/20180408181153_inital.cs:76-108 | After a quiz delete no question, result or answer refers to a missing row |
| Database.RemoveUserPreservesConsistency | TestMakerFreeWebApp/Data/Migrations/20180408181153_inital.cs:51-56 | After a user delete no quiz, question, result or answer refers to a missing row |
| Database.RemoveQuizLeavesNoDescendants | TestMakerFreeWebApp/Data/Migrations/20180408181153_inital.cs:76-134 | After a quiz delete the quiz has no questions or results left, and none of its former questions has answers |
| Database.RemoveQuestionsAtOnce | TestMakerFreeWebApp/Data/Migrations/20180408181153_inital.cs:129-134 | Deleting questions one at a time equals deleting them and all their answers at once |
| Database.RemoveQuizIsStepwise | TestMakerFreeWebApp/Data/ApplicationDbContext.cs:30-35 | The database's one-statement quiz cascade equals cascading question by question, then the results and the quiz |
| Database.RemoveQuizzesAtOnce | TestMakerFreeWebApp/Data/Migrations/20180408181153_inital.cs:76-81 | Deleting quizzes one at a time equals deleting them with all their dependants at once |
| Database.RemoveUserIsStepwise | TestMakerFreeWebApp/Data/ApplicationDbContext.cs:25-29 | The one-statement user cascade equals cascading quiz by quiz, then the user row |
| Api.NotFoundError | TestMakerFreeWebApp/Controllers/QuestionController.cs:36-38 | A 404 message is the entity name, a space, the decimal id, then " has not been found", and the id parses back out of it |
| Api.NotFoundErrorNamesId | TestMakerFreeWebApp/Controllers/QuestionController.cs:36-38 | Two 404 messages for the same entity are equal exactly when the ids are |
| QuizController.Get | TestMakerFreeWebApp/Controllers/QuizController.cs:40-45 | Returns the quiz when present and a null body when absent, always 200 and never a 404; the store is unchanged |
| QuizController.Put | TestMakerFreeWebApp/Controllers/QuizController.cs:51-55 | Always fails as not implemented, leaving the store unchanged |
| QuizController.Post | TestMakerFreeWebApp/Controllers/QuizController.cs:61-65 | Always fails as not implemented, leaving the store unchanged |
| QuizController.Delete | TestMakerFreeWebApp/Controllers/QuizController.cs:71-75 | Always fails as not implemented; nothing is deleted or cascaded |
| QuizController.Query | TestMakerFreeWebApp/Controllers/QuizController.cs:88-91 | A read-only ordered query. A negative num (the SQL TOP count) is refused by the database, a 500 with no change. Otherwise it answers 200 with min(num, table size) rows that are sorted, form a sub-multiset of the table, and have no omitted row before the last one returned |
| QuizController.Latest | TestMakerFreeWebApp/Controllers/QuizController.cs:85-93 | Fails with the database's refusal exactly when num (default 10) is negative; otherwise returns min(num, table size) quizzes, newest first, and no omitted quiz is newer than the last returned; read-only |
| QuizController.ByTitle | TestMakerFreeWebApp/Controllers/QuizController.cs:101-109 | Fails with the database's refusal exactly when num (default 10) is negative; otherwise returns min(num, table size) quizzes in ascending title order, and no omitted quiz has a smaller title than the last returned; read-only |
| QuizController.Random | TestMakerFreeWebApp/Controllers/QuizController.cs:117-125 | Fails with the database's refusal exactly when num (default 10) is negative; otherwise returns min(num, number of quizzes) quizzes, all drawn from the store; read-only |
| QuizController.RandomIsDistinct | TestMakerFreeWebApp/Controllers/QuizController.cs:120-123 | Random never returns the same quiz twice |
| QuizController.RandomCanPickAny | TestMakerFreeWebApp/Controllers/QuizController.cs:120-123 | For every stored quiz some draw of random keys makes it the single quiz Random(1) returns |
| QuizController.QueryPicksStrictlyFirst | TestMakerFreeWebApp/Controllers/QuizController.cs:88-91 | A quiz that every other quiz comes strictly after is the one a single-row query returns |
| QuizController.ByGuid | TestMakerFreeWebApp/Controllers/QuizController.cs:121 | Ordering by a per-quiz random key is a total preorder, whatever the keys |
| Order.TopN | TestMakerFreeWebApp/Controllers/QuizController.cs:104-107 | For the non-negative counts the queries pass, OrderBy then Take gives min(n, length) rows that are sorted and a sub-multiset of the input, with every omitted row after the last kept one |
| Order.Take | TestMakerFreeWebApp/Controllers/QuizController.cs:90 | For a non-negative n, Take(n) is the prefix of length min(n, length) |
| Order.Sort | TestMakerFreeWebApp/Controllers/QuizController.cs:105 | OrderBy returns a permutation of its input, sorted by the key order |
| Order.TakeOfSortedKeepsSmallest | TestMakerFreeWebApp/Controllers/QuizController.cs:89-90 | A prefix of a sorted sequence comes before everything it leaves out |
| Order.TopOneIsStrictMinimum | TestMakerFreeWebApp/Controllers/QuizController.cs:104-107 | A row that every other row comes strictly after is the one row OrderBy then Take(1) keeps |
| QuestionController.Get | TestMakerFreeWebApp/Controllers/QuestionController.cs:28-41 | Returns the question when present, else 404 "QuestionId {id} has not been found"; the store is unchanged |
| QuestionController.Put | TestMakerFreeWebApp/Controllers/QuestionController.cs:47-73 | A null payload gives 500 and no change; otherwise exactly one question is added, with QuizId, Text and Notes from the payload and both dates now, exactly when it is valid and its quiz exists |
| QuestionController.Post | TestMakerFreeWebApp/Controllers/QuestionController.cs:79-109 | Null gives 500 and an unknown id gives 404, both without change; otherwise only QuizId, Text, Notes and LastModifiedDate (now) of that question change |
| QuestionController.Delete | TestMakerFreeWebApp/Controllers/QuestionController.cs:115-133 | An absent id gives 404 and no change; otherwise the question and exactly its answers are removed, with an empty 200 |
| QuestionController.All | TestMakerFreeWebApp/Controllers/QuestionController.cs:142-148 | Every returned row is a stored question of the quiz, every such question is returned, and there are as many rows as the quiz has questions; read-only |
| QuestionController.PutThenGet | TestMakerFreeWebApp/Controllers/QuestionController.cs:66-70 | A created question takes a new id, can be read back under it, and the store stays consistent |
| QuestionController.PostTwice | TestMakerFreeWebApp/Controllers/QuestionController.cs:98-106 | Posting the same payload again stores the same fields; only LastModifiedDate moves |
| QuestionController.PostDeletePreserveConsistency | TestMakerFreeWebApp/Controllers/QuestionController.cs:98-132 | Editing or deleting a question keeps the store consistent |
| QuestionController.DeleteThenGet | TestMakerFreeWebApp/Controllers/QuestionController.cs:128-132 | After a successful delete, reading the question gives 404 and none of its answers remain |
| AnswerController.Get | TestMakerFreeWebApp/Controllers/AnswerController.cs:28-40 | Returns the answer when present, else 404 "AnswerId {id} has not been found"; the store is unchanged |
| AnswerController.Put | TestMakerFreeWebApp/Controllers/AnswerController.cs:46-73 | A null payload gives 500 and no change; otherwise exactly one answer is added, with Notes copied from the payload's Text, Value from the payload and both dates now |
| AnswerController.Post | TestMakerFreeWebApp/Controllers/AnswerController.cs:79-111 | Null gives 500 and an unknown id gives 404, both without change; otherwise only QuestionId, Text, Value, Notes and LastModifiedDate (now) change |
| AnswerController.Delete | TestMakerFreeWebApp/Controllers/AnswerController.cs:117-135 | An absent id gives 404 "AnserId {id} has not been found"; otherwise exactly that answer is removed and nothing else changes |
| AnswerController.All | TestMakerFreeWebApp/Controllers/AnswerController.cs:144-151 | Every returned row is a stored answer of the question, every such answer is returned, and there are as many rows as the question has answers; read-only |
| AnswerController.PutThenGet | TestMakerFreeWebApp/Controllers/AnswerController.cs:66-69 | A created answer takes a new id, can be read back under it, and the store stays consistent |
| AnswerController.PostTwice | TestMakerFreeWebApp/Controllers/AnswerController.cs:98-107 | Posting the same payload again stores the same fields; only LastModifiedDate moves |
| AnswerController.PostDeletePreserveConsistency | TestMakerFreeWebApp/Controllers/AnswerController.cs:98-134 | Editing or deleting an answer keeps the store consistent |
| AnswerController.MissingAnswerMessagesDiffer | TestMakerFreeWebApp/Controllers/AnswerController.cs:126 | Reading and deleting a missing answer give different 404 messages, because delete spells the entity "AnserId" |
| ResultController.Get | TestMakerFreeWebApp/Controllers/ResultController.cs:28-40 | Returns the result when present, else 404 "ResultId {id} has not been found"; the store is unchanged |
| ResultController.Put | TestMakerFreeWebApp/Controllers/ResultController.cs:46-68 | A null payload gives 500 and no change; otherwise exactly one result is added, equal to the payload except for the new id and both dates now |
| ResultController.Post | TestMakerFreeWebApp/Controllers/ResultController.cs:74-107 | Null gives 500 and an unknown id gives 404, both without change; otherwise only QuizId, Text, MinValue, MaxValue and Notes change, with no bound check, and LastModifiedDate becomes the CreatedDate |
| ResultController.Delete | TestMakerFreeWebApp/Controllers/ResultController.cs:113-131 | An absent id gives 404; otherwise exactly that result is removed and nothing else changes |
| ResultController.All | TestMakerFreeWebApp/Controllers/ResultController.cs:140-147 | Every returned row is a stored result of the quiz, every such result is returned, and there are as many rows as the quiz has results; read-only |
| ResultController.PutThenGet | TestMakerFreeWebApp/Controllers/ResultController.cs:60-64 | A created result takes a new id, can be read back under it, and the store stays consistent |
| ResultController.PostIdempotent | TestMakerFreeWebApp/Controllers/ResultController.cs:93-100 | Editing a result twice with the same payload gives the same store and response as once, dates included |
| ResultController.PostAfterPutLooksUnmodified | TestMakerFreeWebApp/Controllers/ResultController.cs:100 | After any edit, a result looks unmodified since its creation: LastModifiedDate equals CreatedDate |
| ResultController.PostDeletePreserveConsistency | TestMakerFreeWebApp/Controllers/ResultController.cs:93-130 | Editing or deleting a result keeps the store consistent |
| DbSeeder.Seed | TestMakerFreeWebApp/Data/DbSeeder.cs:17-30 | A store that has users and quizzes is left as it is, and a successful seed always leaves both users and quizzes |
| DbSeeder.SeedUsers | TestMakerFreeWebApp/Data/DbSeeder.cs:20-23 | Accounts are created only when there are none; afterwards there are some, and the quizzes are untouched |
| DbSeeder.SeedChangesNothingIff | TestMakerFreeWebApp/Data/DbSeeder.cs:20-29 | Seeding leaves the store unchanged exactly when it already has both users and quizzes |
| DbSeeder.SeedIdempotent | TestMakerFreeWebApp/Data/DbSeeder.cs:17-30 | Seeding a seeded store again, with any build flag, GUIDs or clock, changes nothing |
| DbSeeder.SeedPreservesConsistency | TestMakerFreeWebApp/Data/DbSeeder.cs:17-30 | Seeding a consistent store leaves it consistent |
| DbSeeder.SeedEmpty | TestMakerFreeWebApp/Data/DbSeeder.cs:17-89 | Seeding an empty database with fresh GUIDs succeeds with the Admin account (plus three in DEBUG) and a consistent store |
| DbSeeder.SeedEmptyQuizzes | TestMakerFreeWebApp/Data/DbSeeder.cs:91-156 | A freshly seeded database holds quizzes 1 to 3, or 1 to 50 in DEBUG, all by the Admin account |
| DbSeeder.SeedEmptySampleQuiz | TestMakerFreeWebApp/Data/DbSeeder.cs:102-108 | In a freshly seeded DEBUG database quiz k (1 to 47) is generated quiz k, titled "Quiz k Title", with ViewCount 47 - k and its questions, answers and results |
| DbSeeder.SeedAccounts | TestMakerFreeWebApp/Data/DbSeeder.cs:45-86 | The seeded accounts are "Admin" first, plus exactly three more in DEBUG, each valid and carrying its drawn GUID, and only the first is named Admin |
| DbSeeder.InsertUsersSpec | TestMakerFreeWebApp/Data/DbSeeder.cs:88 | Saving the accounts succeeds exactly when all are valid, new and distinct; then the table holds the old accounts plus exactly the new ones under their ids |
| DbSeeder.CreateUsers | TestMakerFreeWebApp/Data/DbSeeder.cs:38-89 | Creating the accounts changes only the user table |
| DbSeeder.CreateUsersAdds | TestMakerFreeWebApp/Data/DbSeeder.cs:38-89 | CreateUsers succeeds exactly when the drawn GUIDs are fresh, and then adds Admin (plus three non-Admin accounts in DEBUG) and keeps every old account |
| DbSeeder.InsertUsersPreservesConsistency | TestMakerFreeWebApp/Data/DbSeeder.cs:88 | A successful account save keeps the store consistent |
| DbSeeder.AdminId | TestMakerFreeWebApp/Data/DbSeeder.cs:98-100 | The author lookup finds an account whose name is exactly "Admin", the least id among them, and fails exactly when there is none |
| DbSeeder.CreateUsersAdmin | TestMakerFreeWebApp/Data/DbSeeder.cs:98-100 | After CreateUsers on a store without Admin, the lookup finds the Admin just created |
| DbSeeder.CreateQuizzes | TestMakerFreeWebApp/Data/DbSeeder.cs:91-156 | CreateQuizzes fails exactly when there is no Admin; otherwise it keeps the users, hands out 3 (50 in DEBUG) quiz ids and leaves the quiz table non-empty |
| DbSeeder.CreateQuizzesByAdmin | TestMakerFreeWebApp/Data/DbSeeder.cs:98-152 | With an Admin, CreateQuizzes is the generated quizzes (47 in DEBUG, none otherwise) then the named ones, all by that Admin |
| DbSeeder.CreateQuizzesRows | TestMakerFreeWebApp/Data/DbSeeder.cs:102-155 | CreateQuizzes keeps every quiz already there and adds exactly 3 (50 in DEBUG) quizzes under the next ids, all by the Admin account |
| DbSeeder.CreateQuizzesSampleRows | TestMakerFreeWebApp/Data/DbSeeder.cs:104-108 | The n-th new id holds generated quiz n, with ViewCount 47 - n |
| DbSeeder.CreateQuizzesSampleShape | TestMakerFreeWebApp/Data/DbSeeder.cs:104-108 | Each generated quiz has three questions of three answers valued 0, 1 and 2 and three results from 0 to 6, all dated 47 days before the seed date |
| DbSeeder.CreateQuizzesPreservesConsistency | TestMakerFreeWebApp/Data/DbSeeder.cs:91-156 | CreateQuizzes on a consistent store leaves it consistent |
| DbSeeder.NamedQuizzes | TestMakerFreeWebApp/Data/DbSeeder.cs:112-152 | There are three named quizzes, each valid and by the author |
| DbSeeder.AuthorQuizzesNamedRow | TestMakerFreeWebApp/Data/DbSeeder.cs:112-152 | The named quizzes take the three ids after the generated ones, in order |
| DbSeeder.AuthorQuizzesTable | TestMakerFreeWebApp/Data/DbSeeder.cs:102-155 | The quiz table after the seeding loop and the named quizzes: the old rows, plus num + 3 new rows under the next ids, all by the author |
| DbSeeder.CreateSampleQuiz | TestMakerFreeWebApp/Data/DbSeeder.cs:160-227 | Creating a sample quiz keeps the users and adds the quiz "Quiz {num} Title" by the author, with the given ViewCount and date, under the next id |
| DbSeeder.CreateSampleQuizShape | TestMakerFreeWebApp/Data/DbSeeder.cs:171-224 | The new quiz has exactly the requested questions, each with exactly the requested answers valued 0..n-1, and the requested results from 0 to 2n, every row dated createdDate |
| DbSeeder.CreateSampleQuizAddsBelowNew | TestMakerFreeWebApp/Data/DbSeeder.cs:186-225 | CreateSampleQuiz keeps every existing row, and every question and result it adds belongs to the new quiz |
| DbSeeder.CreateSampleQuizPreservesConsistency | TestMakerFreeWebApp/Data/DbSeeder.cs:160-227 | Creating a sample quiz keeps the store consistent |
| DbSeeder.SampleQuestionHasSampleAnswers | TestMakerFreeWebApp/Data/DbSeeder.cs:186-210 | Every generated question has exactly n answers, valued 0..n-1 |
| DbSeeder.FreshQuestionGetsSampleAnswers | TestMakerFreeWebApp/Data/DbSeeder.cs:200-210 | A question without answers that gets the generated ones has answers valued exactly 0..n-1 |
| DbSeeder.SampleAnswersRows | TestMakerFreeWebApp/Data/DbSeeder.cs:200-210 | The answer loop takes the next answer ids, keeps the old answers, and answer j has Value j |
| DbSeeder.SampleQuestionsContents | TestMakerFreeWebApp/Data/DbSeeder.cs:186-198 | The question loop keeps the old questions and adds generated questions of the quiz under the next ids |
| DbSeeder.SampleResultsRows | TestMakerFreeWebApp/Data/DbSeeder.cs:213-225 | The result loop takes the next result ids, keeps the old results, and every new result has MinValue 0 and MaxValue twice the answers per question |
| DbSeeder.SampleQuizzesShape | TestMakerFreeWebApp/Data/DbSeeder.cs:105-108 | Loop iteration i creates generated quiz i with ViewCount num - i and three questions, three answers per question and three results |
| DbSeeder.SampleQuizzesPreserveConsistency | TestMakerFreeWebApp/Data/DbSeeder.cs:105-108 | The 47-quiz loop keeps the store consistent |

## Left out

- Scoring is not modelled. That means summing the chosen answers' values and picking the result whose range holds the sum. Neither the controllers nor the seeder implement it.
- Hosting is not modelled: Startup, the dependency-injection container, middleware and routing.
- BaseApiController holds only the DbContext and the JSON settings, so it has no model.
- The Angular client is not modelled.
- Mapster's Adapt and the JSON serializer are foreign libraries. A view model is treated as the entity record itself.
- QuestionController.Post and QuizController.Put/Post take their payload without [FromBody], so ASP.NET Core binds it from the form or query, not the JSON body. The model gives every action the same optional payload and does not model where it was bound from.
- On Put, the payload's own Id is ignored and the store assigns the next identity value. What EF does with a non-zero client Id is not modelled.
- SQL Server consumes an identity value even when the insert fails; the model advances the counter only on success.
- SaveChanges batching: CreateSampleQuiz saves the answers of one question together with the next question. The model inserts each question and then its answers. The resulting ids and rows are the same only if one SaveChanges hands out identity values in the order the rows were added. SQL Server's batched insert does not promise that order. The model assumes it, and so do DbSeeder.AuthorQuizzesNamedRow (the three named quizzes share one save) and DbSeeder.SampleAnswersRows (an answer's id follows its Value).
- Transactions, concurrency and any database error other than a violated constraint are not modelled.
- DateTime.Now, Guid.NewGuid(), AddDays and the DEBUG switch are parameters. A GUID clash between drawn account ids surfaces as a failed save (`None`).
- DbSeeder.AdminId: the name match is ordinal and exact. SQL Server evaluates the translated `UserName = N'Admin'` under the column's collation. That collation is the server default because the migration sets none, and the default ignores case and trailing spaces. So an account named "admin" or "Admin " is found by the program and not by the model, and DbSeeder.CreateQuizzes then returns `None` where the program would seed quizzes for that account. Also, the lookup `Where(UserName == "Admin").FirstOrDefault()` has no ORDER BY, so which matching account SQL Server returns is unspecified. The model takes the least id in ordinal order, and its contract states only which account is found, not how SQL Server picks.
- QuizController.ByTitle: SQL Server sorts with the database collation; the model orders titles by code point, with NULL first. Both contracts state the order only in that sense.
- QuizController.Random: the random keys are a parameter, so the contract states length, membership and distinctness, not a distribution.
- Order.TopN: a negative count gives no rows, as LINQ's in-memory Take does. The quiz queries never pass one: QuizController.Query answers a negative count with the database's refusal first.
- Order.Take: the same holds for a negative n. SQL Server refuses a negative TOP count, and QuizController.Query models that refusal.
- Migration.UserFitsTable: the 128-character caps count Dafny characters (Unicode scalar values). SQL Server's nvarchar(128) counts UTF-16 code units, so a name with characters outside the Basic Multilingual Plane can fit the model and still be refused. The seeder only writes ASCII names.
- DbSeeder.CreateQuizzes: when no Admin exists the source dereferences null and throws; the model returns `None`.
