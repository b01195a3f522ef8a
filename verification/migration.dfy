/** The initial migration as data: the tables it creates (columns with
    nullability and length caps, primary keys, cascading foreign keys), the
    indexes, and the reverse drop sequence, together with a small catalog
    interpreter with SQL Server's rules for creating and dropping tables.
    The entity records are tied to the tables by rendering a record as a row
    of cells: a record is valid exactly when its row fits its table. */
module Migration {
  import opened Base
  import opened Entities

  /** The tables of the migration, by their database names. */
  datatype TableName = Users_t | Quizzes_t | Questions_t | Result_t | Answer_t

  /** Every column name used by the migration (Quizzes_t spells its flags
      column `Falgs`). */
  datatype ColumnName =
    | Id | CreatedDate | LastModifiedDate | Type | Flags | Falgs | Notes | Text
    | DisplayName | Email | UserName
    | Description | Title | UserId | ViewCount
    | QuizId | QuestionId | Value | MinValue | MaxValue

  datatype IndexName =
    IX_Answer_t_QuestionId | IX_Questions_t_QuizId | IX_Quizzes_t_UserId | IX_Result_t_QuizId

  datatype ColumnType = IntType | StringType | DateTimeType

  datatype Column = Column(
    kind: ColumnType,
    nullable: bool,
    maxLength: Option<nat>,
    identity: bool)

  datatype ForeignKey = ForeignKey(
    name: string,
    column: ColumnName,
    principalTable: TableName,
    principalColumn: ColumnName,
    cascade: bool)

  /** A table: its columns by name, its primary key column and its foreign keys. */
  datatype Table = Table(
    name: TableName,
    columns: map<ColumnName, Column>,
    primaryKey: ColumnName,
    foreignKeys: seq<ForeignKey>)

  datatype Index = Index(table: TableName, column: ColumnName)

  datatype Operation =
    | CreateTable(table: Table)
    | CreateIndex(indexName: IndexName, index: Index)
    | DropTable(tableName: TableName)

  datatype Catalog = Catalog(tables: map<TableName, Table>, indexes: map<IndexName, Index>)

  const EmptyCatalog := Catalog(map[], map[])

  /** A plain (non-identity, uncapped) column. */
  function Col(kind: ColumnType, nullable: bool): Column {
    Column(kind, nullable, None, false)
  }

  /** An `int` key column filled by the identity generator. */
  function IdentityKey(): Column {
    Column(IntType, false, None, true)
  }

  function UsersTable(): Table {
    Table(
      Users_t,
      map[ Id := Col(StringType, false),
        CreatedDate := Col(DateTimeType, false),
        DisplayName := Col(StringType, true),
        Email := Col(StringType, false),
        Flags := Col(IntType, false),
        LastModifiedDate := Col(DateTimeType, false),
        Notes := Col(StringType, true),
        Type := Col(IntType, false),
        UserName := Column(StringType, false, Some(UserNameMaxLength), false) ],
      Id,
      [])
  }

  function QuizzesTable(): Table {
    Table(
      Quizzes_t,
      map[ Id := IdentityKey(),
        CreatedDate := Col(DateTimeType, false),
        Description := Col(StringType, true),
        Falgs := Col(IntType, false),
        LastModifiedDate := Col(DateTimeType, false),
        Notes := Col(StringType, true),
        Text := Col(StringType, true),
        Title := Col(StringType, false),
        Type := Col(IntType, false),
        UserId := Col(StringType, false),
        ViewCount := Col(IntType, false) ],
      Id,
      [ForeignKey("FK_Quizzes_t_Users_t_UserId", UserId, Users_t, Id, true)])
  }

  function QuestionsTable(): Table {
    Table(
      Questions_t,
      map[ Id := IdentityKey(),
        CreatedDate := Col(DateTimeType, false),
        Flags := Col(IntType, false),
        LastModifiedDate := Col(DateTimeType, false),
        Notes := Col(StringType, true),
        QuizId := Col(IntType, false),
        Text := Col(StringType, false),
        Type := Col(IntType, false) ],
      Id,
      [ForeignKey("FK_Questions_t_Quizzes_t_QuizId", QuizId, Quizzes_t, Id, true)])
  }

  function ResultTable(): Table {
    Table(
      Result_t,
      map[ Id := IdentityKey(),
        CreatedDate := Col(DateTimeType, false),
        Flags := Col(IntType, false),
        LastModifiedDate := Col(DateTimeType, false),
        MaxValue := Col(IntType, true),
        MinValue := Col(IntType, true),
        Notes := Col(StringType, true),
        QuizId := Col(IntType, false),
        Text := Col(StringType, false),
        Type := Col(IntType, false) ],
      Id,
      [ForeignKey("FK_Result_t_Quizzes_t_QuizId", QuizId, Quizzes_t, Id, true)])
  }

  function AnswerTable(): Table {
    Table(
      Answer_t,
      map[ Id := IdentityKey(),
        CreatedDate := Col(DateTimeType, false),
        Flags := Col(IntType, false),
        LastModifiedDate := Col(DateTimeType, false),
        Notes := Col(StringType, true),
        QuestionId := Col(IntType, false),
        Text := Col(StringType, false),
        Type := Col(IntType, false),
        Value := Col(IntType, false) ],
      Id,
      [ForeignKey("FK_Answer_t_Questions_t_QuestionId", QuestionId, Questions_t, Id, true)])
  }

  /** The migration's `Up`: parents are created before the tables that refer to them. */
  function Up(): seq<Operation> {
    [ CreateTable(UsersTable()),
      CreateTable(QuizzesTable()),
      CreateTable(QuestionsTable()),
      CreateTable(ResultTable()),
      CreateTable(AnswerTable()),
      CreateIndex(IX_Answer_t_QuestionId, Index(Answer_t, QuestionId)),
      CreateIndex(IX_Questions_t_QuizId, Index(Questions_t, QuizId)),
      CreateIndex(IX_Quizzes_t_UserId, Index(Quizzes_t, UserId)),
      CreateIndex(IX_Result_t_QuizId, Index(Result_t, QuizId)) ]
  }

  /** The migration's `Down`: Answer, Result, Question, Quiz, User. */
  function Down(): seq<Operation> {
    [ DropTable(Answer_t),
      DropTable(Result_t),
      DropTable(Questions_t),
      DropTable(Quizzes_t),
      DropTable(Users_t) ]
  }

  predicate HasColumn(t: Table, name: ColumnName) {
    name in t.columns
  }

  /** Every foreign key of `t` names one of its columns and the primary key
      of a table that already exists. */
  predicate ForeignKeysResolve(c: Catalog, t: Table) {
    forall i :: 0 <= i < |t.foreignKeys| ==>
      var fk := t.foreignKeys[i];
      && HasColumn(t, fk.column)
      && fk.principalTable in c.tables
      && c.tables[fk.principalTable].primaryKey == fk.principalColumn
  }

  /** Some other table of the catalog has a foreign key to `name`. */
  predicate Referenced(c: Catalog, name: TableName) {
    exists other :: other in c.tables && other != name && References(c.tables[other], name)
  }

  predicate References(t: Table, name: TableName) {
    exists i :: 0 <= i < |t.foreignKeys| && t.foreignKeys[i].principalTable == name
  }

  /** One schema operation; `None` when the database refuses it. A table that
      another table still refers to cannot be dropped. */
  function Apply(c: Catalog, op: Operation): (r: Option<Catalog>)
    ensures op.DropTable? && r.Some? ==> op.tableName in c.tables && !Referenced(c, op.tableName)
    ensures op.CreateTable? && r.Some? ==> ForeignKeysResolve(c, op.table)
  {
    match op
    case CreateTable(t) =>
      if t.name in c.tables || !HasColumn(t, t.primaryKey) || !ForeignKeysResolve(c, t) then None
      else Some(c.(tables := c.tables[t.name := t]))
    case CreateIndex(name, ix) =>
      if name in c.indexes || ix.table !in c.tables || !HasColumn(c.tables[ix.table], ix.column) then None
      else Some(c.(indexes := c.indexes[name := ix]))
    case DropTable(name) =>
      if name !in c.tables || Referenced(c, name) then None
      else Some(Catalog(
        c.tables - {name},
        map k | k in c.indexes && c.indexes[k].table != name :: c.indexes[k]))
  }

  /** A sequence of operations, stopping at the first refusal. */
  function Run(c: Catalog, ops: seq<Operation>): Option<Catalog>
    decreases |ops|
  {
    if ops == [] then Some(c)
    else
      match Apply(c, ops[0])
      case None => None
      case Some(c') => Run(c', ops[1..])
  }

  /** The schema `Up` produces. */
  const UpCatalog := Catalog(
    map[
      Users_t := UsersTable(), Quizzes_t := QuizzesTable(), Questions_t := QuestionsTable(),
      Result_t := ResultTable(), Answer_t := AnswerTable()],
    map[
      IX_Answer_t_QuestionId := Index(Answer_t, QuestionId),
      IX_Questions_t_QuizId := Index(Questions_t, QuizId),
      IX_Quizzes_t_UserId := Index(Quizzes_t, UserId),
      IX_Result_t_QuizId := Index(Result_t, QuizId)])

  /** Running operations whose every step is accepted ends in the last catalog. */
  lemma {:induction false} RunAccepted(cs: seq<Catalog>, ops: seq<Operation>)
    requires |cs| == |ops| + 1
    requires forall i :: 0 <= i < |ops| ==> Apply(cs[i], ops[i]) == Some(cs[i + 1])
    ensures Run(cs[0], ops) == Some(cs[|ops|])
    decreases |ops|
  {
    if ops != [] {
      RunAccepted(cs[1..], ops[1..]);
    }
  }

  // The catalogs `Up` passes through.
  const Up1 := Catalog(map[Users_t := UsersTable()], map[])
  const Up2 := Up1.(tables := Up1.tables[Quizzes_t := QuizzesTable()])
  const Up3 := Up2.(tables := Up2.tables[Questions_t := QuestionsTable()])
  const Up4 := Up3.(tables := Up3.tables[Result_t := ResultTable()])
  const Up5 := Up4.(tables := Up4.tables[Answer_t := AnswerTable()])
  const Up6 := Up5.(indexes := Up5.indexes[IX_Answer_t_QuestionId := Index(Answer_t, QuestionId)])
  const Up7 := Up6.(indexes := Up6.indexes[IX_Questions_t_QuizId := Index(Questions_t, QuizId)])
  const Up8 := Up7.(indexes := Up7.indexes[IX_Quizzes_t_UserId := Index(Quizzes_t, UserId)])
  const Up9 := Up8.(indexes := Up8.indexes[IX_Result_t_QuizId := Index(Result_t, QuizId)])

  lemma UpStep1() ensures Apply(EmptyCatalog, Up()[0]) == Some(Up1) {
  }

  lemma UpStep2() ensures Apply(Up1, Up()[1]) == Some(Up2) {
    assert ForeignKeysResolve(Up1, QuizzesTable());
  }

  lemma UpStep3() ensures Apply(Up2, Up()[2]) == Some(Up3) {
    assert ForeignKeysResolve(Up2, QuestionsTable());
  }

  lemma UpStep4() ensures Apply(Up3, Up()[3]) == Some(Up4) {
    assert ForeignKeysResolve(Up3, ResultTable());
  }

  lemma UpStep5() ensures Apply(Up4, Up()[4]) == Some(Up5) {
    assert ForeignKeysResolve(Up4, AnswerTable());
  }

  lemma UpIndexesAccepted()
    ensures Apply(Up5, Up()[5]) == Some(Up6)
    ensures Apply(Up6, Up()[6]) == Some(Up7)
  {
  }

  lemma UpIndexesAccepted2()
    ensures Apply(Up7, Up()[7]) == Some(Up8)
    ensures Apply(Up8, Up()[8]) == Some(Up9)
  {
  }

  /** `Up` on an empty database succeeds and yields the five tables and
      four indexes: every table is created after the tables it refers to. */
  lemma UpBuildsSchema()
    ensures Run(EmptyCatalog, Up()) == Some(UpCatalog)
  {
    UpStep1();
    UpStep2();
    UpStep3();
    UpStep4();
    UpStep5();
    UpIndexesAccepted();
    UpIndexesAccepted2();
    var cs := [EmptyCatalog, Up1, Up2, Up3, Up4, Up5, Up6, Up7, Up8, Up9];
    RunAccepted(cs, Up());
    assert Up9 == UpCatalog;
  }

  /** Dropping `name` succeeds when no other table refers to it. */
  lemma DropUnreferenced(c: Catalog, name: TableName)
    requires name in c.tables
    requires forall other :: other in c.tables && other != name ==> !References(c.tables[other], name)
    ensures Apply(c, DropTable(name)).Some?
  {
  }

  // The catalogs `Down` passes through.
  const Down1 := Catalog(UpCatalog.tables - {Answer_t},
    map[IX_Questions_t_QuizId := Index(Questions_t, QuizId),
        IX_Quizzes_t_UserId := Index(Quizzes_t, UserId),
        IX_Result_t_QuizId := Index(Result_t, QuizId)])
  const Down2 := Catalog(Down1.tables - {Result_t},
    map[IX_Questions_t_QuizId := Index(Questions_t, QuizId),
        IX_Quizzes_t_UserId := Index(Quizzes_t, UserId)])
  const Down3 := Catalog(Down2.tables - {Questions_t}, map[IX_Quizzes_t_UserId := Index(Quizzes_t, UserId)])
  const Down4 := Catalog(Down3.tables - {Quizzes_t}, map[])

  /** Dropping `name` when nothing refers to it removes the table and
      exactly the indexes on it. */
  lemma DropLeaves(c: Catalog, name: TableName, keep: map<IndexName, Index>)
    requires name in c.tables
    requires forall other :: other in c.tables && other != name ==> !References(c.tables[other], name)
    requires forall k :: k in keep <==> k in c.indexes && c.indexes[k].table != name
    requires forall k :: k in keep ==> keep[k] == c.indexes[k]
    ensures Apply(c, DropTable(name)) == Some(Catalog(c.tables - {name}, keep))
  {
    DropUnreferenced(c, name);
    var r := Apply(c, DropTable(name)).value;
    assert r.indexes == keep;
  }

  lemma DownStep1() ensures Apply(UpCatalog, Down()[0]) == Some(Down1) {
    DropLeaves(UpCatalog, Answer_t, Down1.indexes);
  }

  lemma DownStep2() ensures Apply(Down1, Down()[1]) == Some(Down2) {
    DropLeaves(Down1, Result_t, Down2.indexes);
  }

  lemma DownStep3() ensures Apply(Down2, Down()[2]) == Some(Down3) {
    DropLeaves(Down2, Questions_t, Down3.indexes);
  }

  lemma DownStep4() ensures Apply(Down3, Down()[3]) == Some(Down4) {
    DropLeaves(Down3, Quizzes_t, Down4.indexes);
  }

  lemma DownStep5() ensures Apply(Down4, Down()[4]) == Some(EmptyCatalog) {
    DropLeaves(Down4, Users_t, EmptyCatalog.indexes);
  }

  /** `Down` after `Up` drops every table and index: each table is dropped
      only once nothing refers to it any more. */
  lemma DownUndoesUp()
    ensures Run(UpCatalog, Down()) == Some(EmptyCatalog)
  {
    DownStep1();
    DownStep2();
    DownStep3();
    DownStep4();
    DownStep5();
    RunAccepted([UpCatalog, Down1, Down2, Down3, Down4, EmptyCatalog], Down());
  }

  /** The order of `Down` matters: dropping Users_t while Quizzes_t still
      refers to it is refused. */
  lemma ParentFirstIsRefused()
    ensures Apply(UpCatalog, DropTable(Users_t)).None?
  {
    assert QuizzesTable().foreignKeys[0].principalTable == Users_t;
    assert References(UpCatalog.tables[Quizzes_t], Users_t);
  }

  /** The foreign keys of the schema: Quiz to User, Question and Result to
      Quiz, Answer to Question, each cascading deletes. */
  lemma ForeignKeysCascade()
    ensures forall name, i :: name in UpCatalog.tables && 0 <= i < |UpCatalog.tables[name].foreignKeys| ==>
      UpCatalog.tables[name].foreignKeys[i].cascade
    ensures forall child, parent :: child in UpCatalog.tables ==>
      (References(UpCatalog.tables[child], parent) <==>
        (child, parent) in {(Quizzes_t, Users_t), (Questions_t, Quizzes_t), (Result_t, Quizzes_t), (Answer_t, Questions_t)})
  {
    forall child, parent | child in UpCatalog.tables
      ensures References(UpCatalog.tables[child], parent) <==>
        (child, parent) in {(Quizzes_t, Users_t), (Questions_t, Quizzes_t), (Result_t, Quizzes_t), (Answer_t, Questions_t)}
    {
      var fks := UpCatalog.tables[child].foreignKeys;
      if References(UpCatalog.tables[child], parent) {
        var i :| 0 <= i < |fks| && fks[i].principalTable == parent;
      } else if child != Users_t {
        assert fks[0].principalTable != parent;
      }
    }
  }

  // ---------------------------------------------------------------------
  // Entity records as table rows

  datatype Cell = IntCell(i: Option<int>) | TextCell(s: Option<string>) | DateCell(d: Option<int>)

  /** A cell can be stored in a column: matching type, not null unless the
      column is nullable, and within the column's length cap. */
  predicate CellFits(col: Column, cell: Cell) {
    match cell
    case IntCell(v) => col.kind == IntType && (v.None? ==> col.nullable)
    case DateCell(v) => col.kind == DateTimeType && (v.None? ==> col.nullable)
    case TextCell(v) =>
      && col.kind == StringType
      && (v.None? ==> col.nullable)
      && (v.Some? && col.maxLength.Some? ==> |v.value| <= col.maxLength.value)
  }

  /** A row has exactly the table's columns, each holding a fitting cell. */
  predicate RowFits(t: Table, row: map<ColumnName, Cell>) {
    && row.Keys == t.columns.Keys
    && forall name :: name in row ==> CellFits(t.columns[name], row[name])
  }

  function UserRow(u: User): map<ColumnName, Cell> {
    map[
      Id := TextCell(u.id),
      CreatedDate := DateCell(Some(u.createdDate)),
      DisplayName := TextCell(u.displayName),
      Email := TextCell(u.email),
      Flags := IntCell(Some(u.flags)),
      LastModifiedDate := DateCell(Some(u.lastModifiedDate)),
      Notes := TextCell(u.notes),
      Type := IntCell(Some(u.kind)),
      UserName := TextCell(u.userName)]
  }

  function QuizRow(q: Quiz): map<ColumnName, Cell> {
    map[
      Id := IntCell(Some(q.id)),
      CreatedDate := DateCell(Some(q.createdDate)),
      Description := TextCell(q.description),
      Falgs := IntCell(Some(q.flags)),
      LastModifiedDate := DateCell(Some(q.lastModifiedDate)),
      Notes := TextCell(q.notes),
      Text := TextCell(q.text),
      Title := TextCell(q.title),
      Type := IntCell(Some(q.kind)),
      UserId := TextCell(q.userId),
      ViewCount := IntCell(Some(q.viewCount))]
  }

  function QuestionRow(q: Question): map<ColumnName, Cell> {
    map[
      Id := IntCell(Some(q.id)),
      CreatedDate := DateCell(Some(q.createdDate)),
      Flags := IntCell(Some(q.flags)),
      LastModifiedDate := DateCell(Some(q.lastModifiedDate)),
      Notes := TextCell(q.notes),
      QuizId := IntCell(Some(q.quizId)),
      Text := TextCell(q.text),
      Type := IntCell(Some(q.kind))]
  }

  function ResultRow(r: Result): map<ColumnName, Cell> {
    map[
      Id := IntCell(Some(r.id)),
      CreatedDate := DateCell(Some(r.createdDate)),
      Flags := IntCell(Some(r.flags)),
      LastModifiedDate := DateCell(Some(r.lastModifiedDate)),
      MaxValue := IntCell(r.maxValue),
      MinValue := IntCell(r.minValue),
      Notes := TextCell(r.notes),
      QuizId := IntCell(Some(r.quizId)),
      Text := TextCell(r.text),
      Type := IntCell(Some(r.kind))]
  }

  function AnswerRow(a: Answer): map<ColumnName, Cell> {
    map[
      Id := IntCell(Some(a.id)),
      CreatedDate := DateCell(Some(a.createdDate)),
      Flags := IntCell(Some(a.flags)),
      LastModifiedDate := DateCell(Some(a.lastModifiedDate)),
      Notes := TextCell(a.notes),
      QuestionId := IntCell(Some(a.questionId)),
      Text := TextCell(a.text),
      Type := IntCell(Some(a.kind)),
      Value := IntCell(Some(a.value))]
  }

  /** A user is valid exactly when its row fits Users_t. */
  lemma UserFitsTable(u: User)
    ensures RowFits(UsersTable(), UserRow(u)) <==> ValidUser(u)
  {
    var t := UsersTable();
    var row := UserRow(u);
    assert row.Keys == t.columns.Keys;
    if ValidUser(u) {
      forall name | name in row ensures CellFits(t.columns[name], row[name]) {
      }
    } else {
      assert !CellFits(t.columns[Id], row[Id]) || !CellFits(t.columns[UserName], row[UserName]) || !CellFits(t.columns[Email], row[Email]);
    }
  }

  /** A quiz is valid exactly when its row fits Quizzes_t. */
  lemma QuizFitsTable(q: Quiz)
    ensures RowFits(QuizzesTable(), QuizRow(q)) <==> ValidQuiz(q)
  {
    var t := QuizzesTable();
    var row := QuizRow(q);
    assert row.Keys == t.columns.Keys;
    if ValidQuiz(q) {
      forall name | name in row ensures CellFits(t.columns[name], row[name]) {
      }
    } else {
      assert !CellFits(t.columns[Title], row[Title]) || !CellFits(t.columns[UserId], row[UserId]);
    }
  }

  /** A question is valid exactly when its row fits Questions_t. */
  lemma QuestionFitsTable(q: Question)
    ensures RowFits(QuestionsTable(), QuestionRow(q)) <==> ValidQuestion(q)
  {
    var t := QuestionsTable();
    var row := QuestionRow(q);
    assert row.Keys == t.columns.Keys;
    if ValidQuestion(q) {
      forall name | name in row ensures CellFits(t.columns[name], row[name]) {
      }
    } else {
      assert !CellFits(t.columns[Text], row[Text]);
    }
  }

  /** A result is valid exactly when its row fits Result_t; in particular
      both bounds may be null and nothing relates them. */
  lemma ResultFitsTable(r: Result)
    ensures RowFits(ResultTable(), ResultRow(r)) <==> ValidResult(r)
  {
    var t := ResultTable();
    var row := ResultRow(r);
    assert row.Keys == t.columns.Keys;
    if ValidResult(r) {
      forall name | name in row ensures CellFits(t.columns[name], row[name]) {
      }
    } else {
      assert !CellFits(t.columns[Text], row[Text]);
    }
  }

  /** An answer is valid exactly when its row fits Answer_t. */
  lemma AnswerFitsTable(a: Answer)
    ensures RowFits(AnswerTable(), AnswerRow(a)) <==> ValidAnswer(a)
  {
    var t := AnswerTable();
    var row := AnswerRow(a);
    assert row.Keys == t.columns.Keys;
    if ValidAnswer(a) {
      forall name | name in row ensures CellFits(t.columns[name], row[name]) {
      }
    } else {
      assert !CellFits(t.columns[Text], row[Text]);
    }
  }
}
