/** The migration linter (database/migration_safety.py): a scanner of the statements of `upgrade`. */
module MigrationSafety {
  import opened Wrappers

  // ---------------------------------------------------------------- syntax trees

  datatype Keyword = Keyword(arg: Option<string>, value: Expr)

  /** `source` is the text of the call. */
  datatype Expr =
    | Str(text: string)
    | Bool(value: bool)
    | Name(id: string)
    | Attribute(target: Expr, attr: string)
    | Call(func: Expr, args: seq<Expr>, keywords: seq<Keyword>, line: int, source: string)
    | Collection(elements: seq<Expr>)
    | OtherExpr

  /** `for` and `while` are both a Loop; the statements the scanner does not enter are OtherStmt. */
  datatype Stmt =
    | With(items: seq<Expr>, body: seq<Stmt>)
    | If(body: seq<Stmt>, orelse: seq<Stmt>)
    | Loop(body: seq<Stmt>, orelse: seq<Stmt>)
    | Try(body: seq<Stmt>, handlers: seq<Handler>, orelse: seq<Stmt>, finalbody: seq<Stmt>)
    | ExprStmt(value: Expr)
    | OtherStmt

  datatype Handler = Handler(body: seq<Stmt>)

  datatype TopLevel =
    | Function(name: string, body: seq<Stmt>)
    | Assign(targets: seq<Expr>, value: Option<Expr>)
    | OtherTop

  datatype Severity = Warning | Error

  datatype Issue = Issue(code: string, severity: Severity, line: int)

  // ---------------------------------------------------------------- reading a call

  function KeywordValue(keywords: seq<Keyword>, name: string): Option<Expr> {
    if keywords == [] then None
    else if keywords[0].arg == Some(name) then Some(keywords[0].value)
    else KeywordValue(keywords[1..], name)
  }

  function Argument(call: Expr, position: nat, keyword: string): Option<Expr>
    requires call.Call?
  {
    if position < |call.args| then Some(call.args[position]) else KeywordValue(call.keywords, keyword)
  }

  function StringArgument(call: Expr, position: nat, keyword: string): Option<string>
    requires call.Call?
  {
    var value := Argument(call, position, keyword);
    if value.Some? && value.value.Str? then Some(value.value.text) else None
  }

  predicate IsTrue(value: Option<Expr>) { value == Some(Bool(true)) }

  predicate IsFalse(value: Option<Expr>) { value == Some(Bool(false)) }

  function OpMethod(call: Expr): Option<string>
    requires call.Call?
  {
    if call.func.Attribute? && call.func.target == Name("op") then Some(call.func.attr) else None
  }

  function CallMethod(call: Expr): Option<string>
    requires call.Call?
  {
    match call.func
    case Attribute(_, attr) => Some(attr)
    case Name(id) => Some(id)
    case _ => None
  }

  predicate IsAutocommitContext(item: Expr) {
    item.Call? && item.func.Attribute? && item.func.attr == "autocommit_block"
  }

  function UpperChar(c: char): char { if 'a' <= c <= 'z' then c - 'a' + 'A' else c }

  function Upper(s: string): (u: string)
    ensures |u| == |s|
  {
    if s == "" then "" else [UpperChar(s[0])] + Upper(s[1..])
  }

  predicate StartsAt(s: string, p: string, i: nat)
    requires i + |p| <= |s|
  {
    s[i..i + |p|] == p
  }

  predicate Contains(s: string, p: string) {
    exists i :: 0 <= i <= |s| - |p| && StartsAt(s, p, i)
  }

  predicate DropsInSql(call: Expr)
    requires call.Call?
  {
    var upper := Upper(call.source);
    Contains(upper, "DROP TABLE") || Contains(upper, "DROP COLUMN") || Contains(upper, "DROP TYPE")
  }

  // ---------------------------------------------------------------- the rule for one call

  datatype Operation =
    | CreateTable | Destroy | CreateIndex | CreateCheck | CreateForeignKey | AddColumn | AlterColumn | Execute | NoRule

  const Destructive := {"drop_table", "drop_column", "drop_constraint", "drop_index"}

  function OperationOf(call: Expr): Operation
    requires call.Call?
  {
    match OpMethod(call)
    case None => NoRule
    case Some(name) =>
      if name == "create_table" then CreateTable
      else if name in Destructive then Destroy
      else if name == "create_index" then CreateIndex
      else if name == "create_check_constraint" then CreateCheck
      else if name == "create_foreign_key" then CreateForeignKey
      else if name == "add_column" then AddColumn
      else if name == "alter_column" then AlterColumn
      else if name == "execute" then Execute
      else NoRule
  }

  /** The table whose creation earlier in the migration makes the operation harmless. */
  function GuardTable(call: Expr): Option<string>
    requires call.Call?
  {
    match OperationOf(call)
    case CreateIndex => StringArgument(call, 1, "table_name")
    case CreateCheck => StringArgument(call, 1, "table_name")
    case CreateForeignKey =>
      var source := StringArgument(call, 1, "source_table");
      if source.Some? && source.value != "" then source else StringArgument(call, 1, "table_name")
    case AddColumn => StringArgument(call, 0, "table_name")
    case _ => None
  }

  predicate Known(table: Option<string>, created: set<string>) {
    table.Some? && table.value != "" && table.value in created
  }

  predicate AddsNonNull(call: Expr)
    requires call.Call?
  {
    var column := Argument(call, 1, "column");
    && column.Some? && column.value.Call? && CallMethod(column.value) == Some("Column")
    && IsFalse(KeywordValue(column.value.keywords, "nullable"))
    && KeywordValue(column.value.keywords, "server_default").None?
  }

  /** What is wrong with a call on tables not known to be new. */
  function Unguarded(call: Expr, autocommit: bool): seq<Issue>
    requires call.Call?
  {
    match OperationOf(call)
    case Destroy => [Issue("destructive-change", Error, call.line)]
    case CreateIndex =>
      if !IsTrue(KeywordValue(call.keywords, "postgresql_concurrently"))
      then [Issue("blocking-index", Error, call.line)]
      else if !autocommit then [Issue("concurrent-index-transaction", Error, call.line)]
      else []
    case AddColumn =>
      if AddsNonNull(call) then [Issue("non-null-column-without-backfill", Error, call.line)] else []
    case AlterColumn =>
      (if KeywordValue(call.keywords, "type_").Some? then [Issue("column-type-rewrite", Error, call.line)] else [])
      + (if IsFalse(KeywordValue(call.keywords, "nullable")) then [Issue("set-not-null", Warning, call.line)] else [])
    case Execute =>
      if DropsInSql(call) then [Issue("destructive-sql", Error, call.line)]
      else [Issue("raw-sql-review", Warning, call.line)]
    case CreateTable => []
    case NoRule => []
    case _ =>
      if !IsTrue(KeywordValue(call.keywords, "postgresql_not_valid"))
      then [Issue("immediate-constraint-validation", Error, call.line)]
      else []
  }

  function CallIssues(call: Expr, autocommit: bool, created: set<string>): seq<Issue>
    requires call.Call?
  {
    if Known(GuardTable(call), created) then [] else Unguarded(call, autocommit)
  }

  function CallCreates(call: Expr): set<string>
    requires call.Call?
  {
    var table := StringArgument(call, 0, "table_name");
    if OperationOf(call) == CreateTable && table.Some? && table.value != "" then {table.value} else {}
  }

  // ---------------------------------------------------------------- document order

  /** A call in statement position, and whether an autocommit block is around it. */
  datatype AnySite = Site(call: Expr, autocommit: bool)

  type Site = s: AnySite | s.call.Call? witness Site(Call(OtherExpr, [], [], 0, ""), false)

  function Flatten(statements: seq<Stmt>, autocommit: bool): seq<Site>
    decreases statements
  {
    if statements == [] then []
    else FlattenStmt(statements[0], autocommit) + Flatten(statements[1..], autocommit)
  }

  function FlattenStmt(statement: Stmt, autocommit: bool): seq<Site>
    decreases statement
  {
    match statement
    case With(items, body) => Flatten(body, autocommit || exists item <- items :: IsAutocommitContext(item))
    case If(body, orelse) => Flatten(body, autocommit) + Flatten(orelse, autocommit)
    case Loop(body, orelse) => Flatten(body, autocommit) + Flatten(orelse, autocommit)
    case Try(body, handlers, orelse, finalbody) =>
      Flatten(body, autocommit) + FlattenAll(handlers, autocommit)
      + Flatten(orelse, autocommit) + Flatten(finalbody, autocommit)
    case ExprStmt(value) => if value.Call? then [Site(value, autocommit)] else []
    case OtherStmt => []
  }

  function FlattenAll(handlers: seq<Handler>, autocommit: bool): seq<Site>
    decreases handlers
  {
    if handlers == [] then [] else Flatten(handlers[0].body, autocommit) + FlattenAll(handlers[1..], autocommit)
  }

  /** The tables known to be created once the sites have been passed. */
  function Creates(sites: seq<Site>, created: set<string>): set<string>
  {
    if sites == [] then created else Creates(sites[1..], created + CallCreates(sites[0].call))
  }

  /** The left fold of the rule over the sites. */
  function Issues(sites: seq<Site>, created: set<string>): seq<Issue>
  {
    if sites == [] then []
    else
      CallIssues(sites[0].call, sites[0].autocommit, created)
      + Issues(sites[1..], created + CallCreates(sites[0].call))
  }

  lemma {:induction false} FoldAppend(a: seq<Site>, b: seq<Site>, created: set<string>)
    ensures Creates(a + b, created) == Creates(b, Creates(a, created))
    ensures Issues(a + b, created) == Issues(a, created) + Issues(b, Creates(a, created))
  {
    if a == [] {
      assert a + b == b;
    } else {
      assert (a + b)[1..] == a[1..] + b;
      FoldAppend(a[1..], b, created + CallCreates(a[0].call));
    }
  }

  // ---------------------------------------------------------------- the scanner

  /** The tables known to be created and the issues found so far. */
  datatype Progress = At(tables: set<string>, issues: seq<Issue>)

  /** Passing `sites` leads from one state of the scanner to another. */
  ghost predicate Passes(sites: seq<Site>, from: Progress, to: Progress) {
    to == At(Creates(sites, from.tables), from.issues + Issues(sites, from.tables))
  }

  lemma {:induction false} PassesMore(sites: seq<Site>, more: seq<Site>, from: Progress, mid: Progress, to: Progress)
    requires Passes(sites, from, mid) && Passes(more, mid, to)
    ensures Passes(sites + more, from, to)
  {
    FoldAppend(sites, more, from.tables);
    Associate(from.issues, Issues(sites, from.tables), Issues(more, mid.tables));
  }

  lemma {:induction false} Associate<T>(a: seq<T>, b: seq<T>, c: seq<T>)
    ensures (a + b) + c == a + (b + c)
  {
  }

  class UpgradeScanner {
    var createdTables: set<string>
    var issues: seq<Issue>

    constructor ()
      ensures createdTables == {} && issues == []
    {
      createdTables, issues := {}, [];
    }

    function Progress(): Progress
      reads this
    {
      At(createdTables, issues)
    }

    /** `_scan_call`. */
    method ScanCall(call: Expr, autocommit: bool)
      requires call.Call?
      modifies this
      ensures createdTables == old(createdTables) + CallCreates(call)
      ensures issues == old(issues) + CallIssues(call, autocommit, old(createdTables))
    {
      match OperationOf(call)
      case CreateTable =>
        var table := StringArgument(call, 0, "table_name");
        if table.Some? && table.value != "" {
          createdTables := createdTables + {table.value};
        }
      case Destroy =>
        AddIssue("destructive-change", Error, call.line);
      case CreateIndex =>
        var table := StringArgument(call, 1, "table_name");
        if Known(table, createdTables) {
          return;
        }
        if !IsTrue(KeywordValue(call.keywords, "postgresql_concurrently")) {
          AddIssue("blocking-index", Error, call.line);
        } else if !autocommit {
          AddIssue("concurrent-index-transaction", Error, call.line);
        }
      case CreateCheck =>
        ScanConstraint(call, autocommit);
      case CreateForeignKey =>
        ScanConstraint(call, autocommit);
      case AddColumn =>
        var table := StringArgument(call, 0, "table_name");
        if Known(table, createdTables) {
          return;
        }
        if AddsNonNull(call) {
          AddIssue("non-null-column-without-backfill", Error, call.line);
        }
      case AlterColumn =>
        if KeywordValue(call.keywords, "type_").Some? {
          AddIssue("column-type-rewrite", Error, call.line);
        }
        if IsFalse(KeywordValue(call.keywords, "nullable")) {
          AddIssue("set-not-null", Warning, call.line);
        }
      case Execute =>
        if DropsInSql(call) {
          AddIssue("destructive-sql", Error, call.line);
        } else {
          AddIssue("raw-sql-review", Warning, call.line);
        }
      case NoRule =>
    }

    method ScanConstraint(call: Expr, ghost autocommit: bool)
      requires call.Call? && (OperationOf(call) == CreateCheck || OperationOf(call) == CreateForeignKey)
      modifies this`issues
      ensures issues == old(issues) + CallIssues(call, autocommit, createdTables)
    {
      var table := StringArgument(call, 1, "table_name");
      if OperationOf(call) == CreateForeignKey {
        var source := StringArgument(call, 1, "source_table");
        table := if source.Some? && source.value != "" then source else table;
      }
      if Known(table, createdTables) {
        return;
      }
      if !IsTrue(KeywordValue(call.keywords, "postgresql_not_valid")) {
        AddIssue("immediate-constraint-validation", Error, call.line);
      }
    }

    method AddIssue(code: string, severity: Severity, line: int)
      modifies this`issues
      ensures issues == old(issues) + [Issue(code, severity, line)]
    {
      issues := issues + [Issue(code, severity, line)];
    }

    /** `scan_block`: finds what the fold of the rule over the calls in document order finds. */
    method ScanBlock(statements: seq<Stmt>, autocommit: bool)
      modifies this
      ensures Passes(Flatten(statements, autocommit), old(Progress()), Progress())
      decreases statements
    {
      for i := 0 to |statements|
        invariant Passes(Flatten(statements[..i], autocommit), old(Progress()), Progress())
      {
        ghost var before := Progress();
        ghost var done := Flatten(statements[..i], autocommit);
        ScanStatement(statements[i], autocommit);
        PassesMore(done, FlattenStmt(statements[i], autocommit), old(Progress()), before, Progress());
        FlattenSnoc(statements, i, autocommit);
      }
      assert statements[..|statements|] == statements;
    }

    /** The body of the loop in `scan_block`. */
    method ScanStatement(statement: Stmt, autocommit: bool)
      modifies this
      ensures Passes(FlattenStmt(statement, autocommit), old(Progress()), Progress())
      decreases statement, 1
    {
      match statement
      case With(items, body) =>
        var nested := autocommit || exists item <- items :: IsAutocommitContext(item);
        ScanBlock(body, nested);
      case If(body, orelse) =>
        ScanBlock(body, autocommit);
        ghost var ifBody := Progress();
        ScanBlock(orelse, autocommit);
        PassesMore(Flatten(body, autocommit), Flatten(orelse, autocommit), old(Progress()), ifBody, Progress());
      case Loop(body, orelse) =>
        ScanBlock(body, autocommit);
        ghost var loopBody := Progress();
        ScanBlock(orelse, autocommit);
        PassesMore(Flatten(body, autocommit), Flatten(orelse, autocommit), old(Progress()), loopBody, Progress());
      case Try(_, _, _, _) =>
        ScanTry(statement, autocommit);
      case ExprStmt(value) =>
        if value.Call? {
          ScanCall(value, autocommit);
          assert Issues([Site(value, autocommit)][1..], createdTables) == [];
        }
      case OtherStmt =>
    }

    method ScanTry(statement: Stmt, autocommit: bool)
      requires statement.Try?
      modifies this
      ensures Passes(FlattenStmt(statement, autocommit), old(Progress()), Progress())
      decreases statement, 0
    {
      var Try(body, handlers, orelse, finalbody) := statement;
      ghost var tried := Flatten(body, autocommit);
      ghost var handled := FlattenAll(handlers, autocommit);
      ghost var otherwise := Flatten(orelse, autocommit);
      ScanBlock(body, autocommit);
      ghost var tryBody := Progress();
      ScanHandlers(handlers, autocommit);
      PassesMore(tried, handled, old(Progress()), tryBody, Progress());
      ghost var tryHandlers := Progress();
      ScanBlock(orelse, autocommit);
      PassesMore(tried + handled, otherwise, old(Progress()), tryHandlers, Progress());
      ghost var tryElse := Progress();
      ScanBlock(finalbody, autocommit);
      PassesMore(tried + handled + otherwise, Flatten(finalbody, autocommit), old(Progress()), tryElse, Progress());
    }

    /** The loop over the handlers of a `try`. */
    method ScanHandlers(handlers: seq<Handler>, autocommit: bool)
      modifies this
      ensures Passes(FlattenAll(handlers, autocommit), old(Progress()), Progress())
      decreases handlers
    {
      for i := 0 to |handlers|
        invariant Passes(FlattenAll(handlers[..i], autocommit), old(Progress()), Progress())
      {
        ghost var before := Progress();
        ScanBlock(handlers[i].body, autocommit);
        PassesMore(FlattenAll(handlers[..i], autocommit), Flatten(handlers[i].body, autocommit),
          old(Progress()), before, Progress());
        FlattenAllSnoc(handlers, i, autocommit);
      }
      assert handlers[..|handlers|] == handlers;
    }
  }

  lemma {:induction false} FlattenAllSnoc(handlers: seq<Handler>, i: nat, autocommit: bool)
    requires i < |handlers|
    ensures FlattenAll(handlers[..i + 1], autocommit)
         == FlattenAll(handlers[..i], autocommit) + Flatten(handlers[i].body, autocommit)
    decreases i
  {
    if i == 0 {
      assert handlers[..1][1..] == [];
    } else {
      var rest := handlers[1..];
      assert rest[..i] == handlers[..i + 1][1..] && rest[..i - 1] == handlers[..i][1..];
      FlattenAllSnoc(rest, i - 1, autocommit);
    }
  }

  lemma {:induction false} FlattenSnoc(statements: seq<Stmt>, i: nat, autocommit: bool)
    requires i < |statements|
    ensures Flatten(statements[..i + 1], autocommit)
         == Flatten(statements[..i], autocommit) + FlattenStmt(statements[i], autocommit)
    decreases i
  {
    if i == 0 {
      assert statements[..1][1..] == [];
    } else {
      var rest := statements[1..];
      assert rest[..i] == statements[..i + 1][1..] && rest[..i - 1] == statements[..i][1..];
      FlattenSnoc(rest, i - 1, autocommit);
    }
  }

  // ---------------------------------------------------------------- what more knowledge removes

  /** `a` is `b` with some items left out. */
  predicate Subsequence<T(==)>(a: seq<T>, b: seq<T>) {
    if a == [] then true
    else if b == [] then false
    else (a[0] == b[0] && Subsequence(a[1..], b[1..])) || Subsequence(a, b[1..])
  }

  lemma {:induction false} SubsequenceAppend<T>(a: seq<T>, b: seq<T>, c: seq<T>, d: seq<T>)
    requires Subsequence(a, b) && Subsequence(c, d)
    ensures Subsequence(a + c, b + d)
    decreases |b|
  {
    if b == [] {
      assert a + c == c && b + d == d;
    } else {
      assert (b + d)[1..] == b[1..] + d && (b + d)[0] == b[0];
      if a != [] && a[0] == b[0] && Subsequence(a[1..], b[1..]) {
        SubsequenceAppend(a[1..], b[1..], c, d);
        assert (a + c)[1..] == a[1..] + c && (a + c)[0] == a[0];
      } else {
        SubsequenceAppend(a, b[1..], c, d);
      }
    }
  }

  lemma {:induction false} SubsequenceSelf<T>(a: seq<T>)
    ensures Subsequence(a, a)
  {
    if a != [] {
      SubsequenceSelf(a[1..]);
    }
  }

  /** The findings that a table's creation in the same migration excuses. */
  const Excusable := {
    "blocking-index", "concurrent-index-transaction", "immediate-constraint-validation",
    "non-null-column-without-backfill"}

  function Without(issues: seq<Issue>, codes: set<string>): seq<Issue> {
    if issues == [] then []
    else (if issues[0].code in codes then [] else [issues[0]]) + Without(issues[1..], codes)
  }

  lemma {:induction false} WithoutAppend(a: seq<Issue>, b: seq<Issue>, codes: set<string>)
    ensures Without(a + b, codes) == Without(a, codes) + Without(b, codes)
  {
    if a == [] {
      assert a + b == b;
    } else {
      assert (a + b)[1..] == a[1..] + b;
      WithoutAppend(a[1..], b, codes);
    }
  }

  lemma {:induction false} WithoutSmall(issues: seq<Issue>, codes: set<string>)
    ensures |issues| == 1 ==> Without(issues, codes) == if issues[0].code in codes then [] else issues
    ensures |issues| == 0 ==> Without(issues, codes) == []
  {
    if |issues| == 1 {
      assert issues[1..] == [];
      assert issues == [issues[0]];
    }
  }

  lemma {:induction false} WithoutNone(issues: seq<Issue>, codes: set<string>)
    requires forall issue <- issues :: issue.code !in codes
    ensures Without(issues, codes) == issues
  {
    if issues != [] {
      WithoutNone(issues[1..], codes);
    }
  }

  lemma {:induction false} CallUnderMore(call: Expr, autocommit: bool, created: set<string>, more: set<string>)
    requires call.Call? && created <= more
    ensures CallIssues(call, autocommit, more) == CallIssues(call, autocommit, created)
      || (CallIssues(call, autocommit, more) == []
          && |CallIssues(call, autocommit, created)| == 1
          && CallIssues(call, autocommit, created)[0].code in Excusable)
  {
  }

  /**
   * Knowing of more created tables leaves findings out, adds or moves none, and leaves out only those that a
   * created table excuses.
   */
  lemma {:induction false} MoreTablesFewerIssues(sites: seq<Site>, created: set<string>, more: set<string>)
    requires created <= more
    ensures Subsequence(Issues(sites, more), Issues(sites, created))
    ensures Without(Issues(sites, more), Excusable) == Without(Issues(sites, created), Excusable)
  {
    if sites != [] {
      var call, autocommit := sites[0].call, sites[0].autocommit;
      var fewer, all := CallIssues(call, autocommit, more), CallIssues(call, autocommit, created);
      var restFewer := Issues(sites[1..], more + CallCreates(call));
      var restAll := Issues(sites[1..], created + CallCreates(call));
      MoreTablesFewerIssues(sites[1..], created + CallCreates(call), more + CallCreates(call));
      assert Subsequence(fewer, all) && Without(fewer, Excusable) == Without(all, Excusable) by {
        CallUnderMore(call, autocommit, created, more);
        SubsequenceSelf(all);
        WithoutSmall(all, Excusable);
      }
      SubsequenceAppend(fewer, all, restFewer, restAll);
      WithoutAppend(fewer, restFewer, Excusable);
      WithoutAppend(all, restAll, Excusable);
    }
  }

  const Transactional := {"concurrent-index-transaction"}

  function InAutocommit(sites: seq<Site>): seq<Site> {
    if sites == [] then [] else [Site(sites[0].call, true)] + InAutocommit(sites[1..])
  }

  lemma {:induction false} InAutocommitAppend(a: seq<Site>, b: seq<Site>)
    ensures InAutocommit(a + b) == InAutocommit(a) + InAutocommit(b)
  {
    if a == [] {
      assert a + b == b;
    } else {
      assert (a + b)[1..] == a[1..] + b;
      InAutocommitAppend(a[1..], b);
    }
  }

  /** An autocommit block reaches every call below it, through any nesting of statements. */
  lemma {:induction false} FlattenInAutocommit(statements: seq<Stmt>, autocommit: bool)
    ensures Flatten(statements, true) == InAutocommit(Flatten(statements, autocommit))
    decreases statements
  {
    if statements != [] {
      FlattenStmtInAutocommit(statements[0], autocommit);
      FlattenInAutocommit(statements[1..], autocommit);
      InAutocommitAppend(FlattenStmt(statements[0], autocommit), Flatten(statements[1..], autocommit));
    }
  }

  lemma {:induction false} FlattenStmtInAutocommit(statement: Stmt, autocommit: bool)
    ensures FlattenStmt(statement, true) == InAutocommit(FlattenStmt(statement, autocommit))
    decreases statement
  {
    match statement
    case With(items, body) =>
      FlattenInAutocommit(body, autocommit || exists item <- items :: IsAutocommitContext(item));
    case If(body, orelse) =>
      FlattenInAutocommit(body, autocommit);
      FlattenInAutocommit(orelse, autocommit);
      InAutocommitAppend(Flatten(body, autocommit), Flatten(orelse, autocommit));
    case Loop(body, orelse) =>
      FlattenInAutocommit(body, autocommit);
      FlattenInAutocommit(orelse, autocommit);
      InAutocommitAppend(Flatten(body, autocommit), Flatten(orelse, autocommit));
    case Try(body, handlers, orelse, finalbody) =>
      FlattenInAutocommit(body, autocommit);
      FlattenAllInAutocommit(handlers, autocommit);
      FlattenInAutocommit(orelse, autocommit);
      FlattenInAutocommit(finalbody, autocommit);
      var tried, handled := Flatten(body, autocommit), FlattenAll(handlers, autocommit);
      var otherwise, finally := Flatten(orelse, autocommit), Flatten(finalbody, autocommit);
      InAutocommitAppend(tried, handled);
      InAutocommitAppend(tried + handled, otherwise);
      InAutocommitAppend(tried + handled + otherwise, finally);
    case ExprStmt(value) =>
      if value.Call? {
        assert [Site(value, autocommit)][1..] == [];
      }
    case OtherStmt =>
  }

  lemma {:induction false} FlattenAllInAutocommit(handlers: seq<Handler>, autocommit: bool)
    ensures FlattenAll(handlers, true) == InAutocommit(FlattenAll(handlers, autocommit))
    decreases handlers
  {
    if handlers != [] {
      FlattenInAutocommit(handlers[0].body, autocommit);
      FlattenAllInAutocommit(handlers[1..], autocommit);
      InAutocommitAppend(Flatten(handlers[0].body, autocommit), FlattenAll(handlers[1..], autocommit));
    }
  }

  lemma {:induction false} CallInAutocommit(call: Expr, autocommit: bool, created: set<string>)
    requires call.Call?
    ensures CallIssues(call, true, created) == CallIssues(call, autocommit, created)
         || (CallIssues(call, true, created) == []
             && CallIssues(call, autocommit, created) == [Issue("concurrent-index-transaction", Error, call.line)])
  {
    if OperationOf(call) != CreateIndex {
      assert Unguarded(call, true) == Unguarded(call, autocommit);
    }
  }

  lemma {:induction false} NoneInAutocommit(call: Expr, created: set<string>)
    requires call.Call?
    ensures forall issue <- CallIssues(call, true, created) :: issue.code !in Transactional
  {
  }

  lemma {:induction false} IssuesInAutocommit(sites: seq<Site>, created: set<string>)
    ensures Issues(InAutocommit(sites), created) == Without(Issues(sites, created), Transactional)
  {
    if sites != [] {
      var call, autocommit := sites[0].call, sites[0].autocommit;
      var next := created + CallCreates(call);
      var wrapped := InAutocommit(sites);
      assert wrapped[0] == Site(call, true) && wrapped[1..] == InAutocommit(sites[1..]);
      IssuesInAutocommit(sites[1..], next);
      var own := CallIssues(call, autocommit, created);
      WithoutAppend(own, Issues(sites[1..], next), Transactional);
      assert CallIssues(call, true, created) == Without(own, Transactional) by {
        CallInAutocommit(call, autocommit, created);
        WithoutSmall(own, Transactional);
        NoneInAutocommit(call, created);
        WithoutNone(CallIssues(call, true, created), Transactional);
      }
    }
  }

  lemma {:induction false} WithoutSubsequence(issues: seq<Issue>, codes: set<string>)
    ensures Subsequence(Without(issues, codes), issues)
  {
    if issues != [] {
      WithoutSubsequence(issues[1..], codes);
      var rest := Without(issues[1..], codes);
      if issues[0].code in codes {
        assert Without(issues, codes) == rest;
      } else {
        assert Without(issues, codes)[1..] == rest;
      }
    }
  }

  /** Wrapping a block in `autocommit_block()` removes the findings about index transactions and nothing else. */
  lemma {:induction false} WrappingRemovesTransactionIssues(
    statements: seq<Stmt>, autocommit: bool, wrapper: Expr, created: set<string>)
    requires IsAutocommitContext(wrapper)
    ensures var plain := Flatten(statements, autocommit);
      var wrapped := Flatten([With([wrapper], statements)], autocommit);
      && Creates(wrapped, created) == Creates(plain, created)
      && Issues(wrapped, created) == Without(Issues(plain, created), Transactional)
      && Subsequence(Issues(wrapped, created), Issues(plain, created))
  {
    var plain := Flatten(statements, autocommit);
    var block := With([wrapper], statements);
    assert wrapper in block.items;
    assert [block][1..] == [];
    assert Flatten([block], autocommit) == Flatten(statements, true);
    FlattenInAutocommit(statements, autocommit);
    IssuesInAutocommit(plain, created);
    CreatesInAutocommit(plain, created);
    WithoutSubsequence(Issues(plain, created), Transactional);
  }

  lemma {:induction false} CreatesInAutocommit(sites: seq<Site>, created: set<string>)
    ensures Creates(InAutocommit(sites), created) == Creates(sites, created)
  {
    if sites != [] {
      assert InAutocommit(sites)[1..] == InAutocommit(sites[1..]);
      CreatesInAutocommit(sites[1..], created + CallCreates(sites[0].call));
    }
  }

  // ---------------------------------------------------------------- wrapping anywhere

  /** `b` is `a` with any number of runs of statements, at any depth, wrapped in autocommit blocks. */
  ghost predicate Wrapped(a: seq<Stmt>, b: seq<Stmt>)
    decreases b
  {
    if b == [] then a == []
    else
      || (a != [] && WrappedStmt(a[0], b[0]) && Wrapped(a[1..], b[1..]))
      || (&& b[0].With? && (exists item <- b[0].items :: IsAutocommitContext(item))
          && exists k {:trigger Wrapped(a[..k], b[0].body)} ::
               0 <= k <= |a| && Wrapped(a[..k], b[0].body) && Wrapped(a[k..], b[1..]))
  }

  ghost predicate WrappedStmt(a: Stmt, b: Stmt)
    decreases b
  {
    match b
    case With(items, body) => a.With? && a.items == items && Wrapped(a.body, body)
    case If(body, orelse) => a.If? && Wrapped(a.body, body) && Wrapped(a.orelse, orelse)
    case Loop(body, orelse) => a.Loop? && Wrapped(a.body, body) && Wrapped(a.orelse, orelse)
    case Try(body, handlers, orelse, finalbody) =>
      && a.Try? && Wrapped(a.body, body) && WrappedAll(a.handlers, handlers)
      && Wrapped(a.orelse, orelse) && Wrapped(a.finalbody, finalbody)
    case _ => a == b
  }

  ghost predicate WrappedAll(a: seq<Handler>, b: seq<Handler>)
    decreases b
  {
    if a == [] || b == [] then a == [] && b == []
    else Wrapped(a[0].body, b[0].body) && WrappedAll(a[1..], b[1..])
  }

  /** The same calls, some of them now under an autocommit block. */
  predicate Raised(a: seq<Site>, b: seq<Site>) {
    |a| == |b| && forall i :: 0 <= i < |a| ==> a[i].call == b[i].call && (a[i].autocommit ==> b[i].autocommit)
  }

  lemma {:induction false} RaisedAppend(a: seq<Site>, b: seq<Site>, c: seq<Site>, d: seq<Site>)
    requires Raised(a, b) && Raised(c, d)
    ensures Raised(a + c, b + d)
  {
  }

  lemma {:induction false} FlattenSplit(statements: seq<Stmt>, k: nat, autocommit: bool)
    requires k <= |statements|
    ensures Flatten(statements, autocommit)
         == Flatten(statements[..k], autocommit) + Flatten(statements[k..], autocommit)
    decreases k
  {
    if k == 0 {
      assert statements[..0] == [] && statements[0..] == statements;
    } else {
      var rest := statements[1..];
      FlattenSplit(rest, k - 1, autocommit);
      assert statements[..k][1..] == rest[..k - 1] && rest[k - 1..] == statements[k..];
    }
  }

  lemma {:induction false} WrappedRaises(a: seq<Stmt>, b: seq<Stmt>, outer: bool, inner: bool)
    requires Wrapped(a, b) && (outer ==> inner)
    ensures Raised(Flatten(a, outer), Flatten(b, inner))
    decreases b
  {
    if b != [] {
      if a != [] && WrappedStmt(a[0], b[0]) && Wrapped(a[1..], b[1..]) {
        WrappedStmtRaises(a[0], b[0], outer, inner);
        WrappedRaises(a[1..], b[1..], outer, inner);
        RaisedAppend(FlattenStmt(a[0], outer), FlattenStmt(b[0], inner),
          Flatten(a[1..], outer), Flatten(b[1..], inner));
      } else {
        var k :| 0 <= k <= |a| && Wrapped(a[..k], b[0].body) && Wrapped(a[k..], b[1..]);
        WrappedRaises(a[..k], b[0].body, outer, true);
        WrappedRaises(a[k..], b[1..], outer, inner);
        FlattenSplit(a, k, outer);
        RaisedAppend(Flatten(a[..k], outer), FlattenStmt(b[0], inner), Flatten(a[k..], outer), Flatten(b[1..], inner));
      }
    }
  }

  lemma {:induction false} WrappedStmtRaises(a: Stmt, b: Stmt, outer: bool, inner: bool)
    requires WrappedStmt(a, b) && (outer ==> inner)
    ensures Raised(FlattenStmt(a, outer), FlattenStmt(b, inner))
    decreases b, 1
  {
    match b
    case With(items, body) =>
      var marked := exists item <- items :: IsAutocommitContext(item);
      WrappedRaises(a.body, body, outer || marked, inner || marked);
    case If(body, orelse) =>
      WrappedRaises(a.body, body, outer, inner);
      WrappedRaises(a.orelse, orelse, outer, inner);
      RaisedAppend(Flatten(a.body, outer), Flatten(body, inner), Flatten(a.orelse, outer), Flatten(orelse, inner));
    case Loop(body, orelse) =>
      WrappedRaises(a.body, body, outer, inner);
      WrappedRaises(a.orelse, orelse, outer, inner);
      RaisedAppend(Flatten(a.body, outer), Flatten(body, inner), Flatten(a.orelse, outer), Flatten(orelse, inner));
    case Try(_, _, _, _) =>
      WrappedTryRaises(a, b, outer, inner);
    case _ =>
  }

  lemma {:induction false} WrappedTryRaises(a: Stmt, b: Stmt, outer: bool, inner: bool)
    requires b.Try? && WrappedStmt(a, b) && (outer ==> inner)
    ensures Raised(FlattenStmt(a, outer), FlattenStmt(b, inner))
    decreases b, 0
  {
    var a1, a2 := Flatten(a.body, outer), FlattenAll(a.handlers, outer);
    var a3, a4 := Flatten(a.orelse, outer), Flatten(a.finalbody, outer);
    var b1, b2 := Flatten(b.body, inner), FlattenAll(b.handlers, inner);
    var b3, b4 := Flatten(b.orelse, inner), Flatten(b.finalbody, inner);
    WrappedRaises(a.body, b.body, outer, inner);
    WrappedAllRaises(a.handlers, b.handlers, outer, inner);
    WrappedRaises(a.orelse, b.orelse, outer, inner);
    WrappedRaises(a.finalbody, b.finalbody, outer, inner);
    RaisedAppend(a1, b1, a2, b2);
    RaisedAppend(a1 + a2, b1 + b2, a3, b3);
    RaisedAppend(a1 + a2 + a3, b1 + b2 + b3, a4, b4);
  }

  lemma {:induction false} WrappedAllRaises(a: seq<Handler>, b: seq<Handler>, outer: bool, inner: bool)
    requires WrappedAll(a, b) && (outer ==> inner)
    ensures Raised(FlattenAll(a, outer), FlattenAll(b, inner))
    decreases b
  {
    if a != [] && b != [] {
      WrappedRaises(a[0].body, b[0].body, outer, inner);
      WrappedAllRaises(a[1..], b[1..], outer, inner);
    }
  }

  lemma {:induction false} CallRaised(call: Expr, before: bool, after: bool, created: set<string>)
    requires call.Call? && (before ==> after)
    ensures var plain, raised := CallIssues(call, before, created), CallIssues(call, after, created);
      Subsequence(raised, plain) && Without(raised, Transactional) == Without(plain, Transactional)
  {
    var plain, raised := CallIssues(call, before, created), CallIssues(call, after, created);
    CallInAutocommit(call, before, created);
    SubsequenceSelf(plain);
    WithoutSmall(plain, Transactional);
  }

  lemma {:induction false} RaisedIssues(a: seq<Site>, b: seq<Site>, created: set<string>)
    requires Raised(a, b)
    ensures Creates(b, created) == Creates(a, created)
    ensures Subsequence(Issues(b, created), Issues(a, created))
    ensures Without(Issues(b, created), Transactional) == Without(Issues(a, created), Transactional)
  {
    if a != [] {
      var next := created + CallCreates(a[0].call);
      var plain := CallIssues(a[0].call, a[0].autocommit, created);
      var raised := CallIssues(b[0].call, b[0].autocommit, created);
      RaisedIssues(a[1..], b[1..], next);
      CallRaised(a[0].call, a[0].autocommit, b[0].autocommit, created);
      SubsequenceAppend(raised, plain, Issues(b[1..], next), Issues(a[1..], next));
      WithoutAppend(plain, Issues(a[1..], next), Transactional);
      WithoutAppend(raised, Issues(b[1..], next), Transactional);
    }
  }

  /**
   * Wrapping statements anywhere in a migration in autocommit blocks leaves a subsequence of its findings, without
   * some about index transactions and with all the others.
   */
  lemma {:induction false} WrappingAnywhere(a: seq<Stmt>, b: seq<Stmt>, autocommit: bool, created: set<string>)
    requires Wrapped(a, b)
    ensures var plain, wrapped := Flatten(a, autocommit), Flatten(b, autocommit);
      && Creates(wrapped, created) == Creates(plain, created)
      && Subsequence(Issues(wrapped, created), Issues(plain, created))
      && Without(Issues(wrapped, created), Transactional) == Without(Issues(plain, created), Transactional)
  {
    WrappedRaises(a, b, autocommit, autocommit);
    RaisedIssues(Flatten(a, autocommit), Flatten(b, autocommit), created);
  }

  // ---------------------------------------------------------------- reports and waivers

  datatype Report = Report(issues: seq<Issue>, waivers: set<string>) {
    function BlockingIssues(): seq<Issue> {
      Blocking(issues, waivers)
    }

    predicate Safe() { BlockingIssues() == [] }
  }

  function Blocking(issues: seq<Issue>, waivers: set<string>): seq<Issue> {
    if issues == [] then []
    else
      (if issues[0].severity == Error && issues[0].code !in waivers then [issues[0]] else [])
      + Blocking(issues[1..], waivers)
  }

  datatype WaiverError = NotALiteralCollection | NotALiteralString

  predicate IsWaivers(node: TopLevel) {
    node.Assign? && exists target <- node.targets :: target == Name("migration_safety_allow")
  }

  predicate AllStrings(elements: seq<Expr>) {
    forall e <- elements :: e.Str?
  }

  /** What the first waiver assignment says. */
  function WaiversOf(node: TopLevel): Result<set<string>, WaiverError>
    requires node.Assign?
  {
    if node.value.None? || !node.value.value.Collection? then Failure(NotALiteralCollection)
    else if !AllStrings(node.value.value.elements) then Failure(NotALiteralString)
    else Success(set e <- node.value.value.elements | e.Str? :: e.text)
  }

  /** The first such assignment decides. */
  function Waivers(tree: seq<TopLevel>): Result<set<string>, WaiverError> {
    if tree == [] then Success({})
    else if IsWaivers(tree[0]) then WaiversOf(tree[0])
    else Waivers(tree[1..])
  }

  /** `_extract_waivers`. */
  method ExtractWaivers(tree: seq<TopLevel>) returns (r: Result<set<string>, WaiverError>)
    ensures r == Waivers(tree)
  {
    for i := 0 to |tree|
      invariant Waivers(tree) == Waivers(tree[i..])
    {
      assert tree[i..][1..] == tree[i + 1..];
      if IsWaivers(tree[i]) {
        r := ReadWaivers(tree[i]);
        return;
      }
    }
    return Success({});
  }

  method ReadWaivers(node: TopLevel) returns (r: Result<set<string>, WaiverError>)
    requires node.Assign?
    ensures r == WaiversOf(node)
  {
    if node.value.None? || !node.value.value.Collection? {
      return Failure(NotALiteralCollection);
    }
    var elements := node.value.value.elements;
    var items: set<string> := {};
    for n := 0 to |elements|
      invariant forall k :: 0 <= k < n ==> elements[k].Str?
      invariant forall k :: 0 <= k < n ==> elements[k].text in items
      invariant forall text <- items :: Str(text) in elements
    {
      if !elements[n].Str? {
        assert elements[n] in elements;
        return Failure(NotALiteralString);
      }
      items := items + {elements[n].text};
    }
    assert forall e <- elements :: e.Str? && e.text in items;
    assert items == set e <- elements | e.Str? :: e.text by {
      forall text | text in items
        ensures text in set e <- elements | e.Str? :: e.text
      {
        assert Str(text) in elements && Str(text).text == text;
      }
    }
    return Success(items);
  }

  predicate IsUpgrade(node: TopLevel) { node.Function? && node.name == "upgrade" }

  function UpgradeBody(tree: seq<TopLevel>): Option<seq<Stmt>> {
    if tree == [] then None
    else if IsUpgrade(tree[0]) then Some(tree[0].body)
    else UpgradeBody(tree[1..])
  }

  /** What there is to find in a migration with these statements. */
  function Findings(body: Option<seq<Stmt>>): seq<Issue> {
    if body.None? then [Issue("missing-upgrade", Error, 1)] else Issues(Flatten(body.value, false), {})
  }

  /** `inspect_migration_source`, on the parsed module. */
  method InspectMigration(tree: seq<TopLevel>) returns (r: Result<Report, WaiverError>)
    ensures r == match Waivers(tree)
      case Failure(error) => Failure(error)
      case Success(waivers) => Success(Report(Findings(UpgradeBody(tree)), waivers))
    ensures r.Success? ==> (r.value.Safe() <==>
      forall issue <- Findings(UpgradeBody(tree)) :: issue.severity == Error ==> issue.code in r.value.waivers)
  {
    var waivers := ExtractWaivers(tree);
    if waivers.Failure? {
      return Failure(waivers.error);
    }
    var upgrade := UpgradeBody(tree);
    if upgrade.None? {
      var missing := [Issue("missing-upgrade", Error, 1)];
      BlockingExact(missing, waivers.value);
      return Success(Report(missing, waivers.value));
    }
    var scanner := new UpgradeScanner();
    scanner.ScanBlock(upgrade.value, false);
    assert scanner.issues == Findings(upgrade);
    BlockingExact(scanner.issues, waivers.value);
    return Success(Report(scanner.issues, waivers.value));
  }

  /** The blocking issues are the errors that no waiver names, so a report is safe when every error is waived. */
  lemma {:induction false} BlockingExact(issues: seq<Issue>, waivers: set<string>)
    ensures Subsequence(Blocking(issues, waivers), issues)
    ensures forall x :: x in Blocking(issues, waivers) <==>
      x in issues && x.severity == Error && x.code !in waivers
    ensures Blocking(issues, waivers) == [] <==> forall x <- issues :: x.severity == Error ==> x.code in waivers
  {
    if issues != [] {
      BlockingExact(issues[1..], waivers);
      var rest := Blocking(issues[1..], waivers);
      if issues[0].severity == Error && issues[0].code !in waivers {
        assert Blocking(issues, waivers)[1..] == rest;
      } else {
        assert Blocking(issues, waivers) == rest;
      }
    }
  }

  /** More waivers only ever take blocking issues away. */
  lemma {:induction false} MoreWaiversFewerBlocking(issues: seq<Issue>, waivers: set<string>, more: set<string>)
    requires waivers <= more
    ensures Subsequence(Blocking(issues, more), Blocking(issues, waivers))
  {
    if issues != [] {
      MoreWaiversFewerBlocking(issues[1..], waivers, more);
      var x := issues[0];
      var one := if x.severity == Error && x.code !in waivers then [x] else [];
      var fewer := if x.severity == Error && x.code !in more then [x] else [];
      SubsequenceSelf(one);
      SubsequenceAppend(fewer, one, Blocking(issues[1..], more), Blocking(issues[1..], waivers));
    }
  }
}
