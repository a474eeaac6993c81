/** Allowlisted multi-column sorting and the keyset boundary predicate (database/sorting.py). */
module Sorting {
  import opened Wrappers
  import opened Sql
  import opened Text

  datatype Direction = Asc | Desc
  datatype NullPlacement = NullsFirst | NullsLast

  /** `column` is the expression a field sorts by; the accessor reads the same column of a row. */
  datatype SortField = SortField(
    name: string, column: string, defaultNulls: NullPlacement, nullable: bool, unique: bool)

  datatype SortTerm = SortTerm(field: string, direction: Direction, nulls: Option<NullPlacement>)
  datatype ResolvedTerm = ResolvedTerm(field: SortField, direction: Direction, nulls: NullPlacement)

  type Key = seq<Cell>

  // ---------------------------------------------------------------- ORDER BY

  /** `a` comes strictly before `b` under `ORDER BY column [ASC|DESC] NULLS [FIRST|LAST]`. */
  predicate CellBefore(term: ResolvedTerm, a: Cell, b: Cell) {
    match (a, b)
    case (None, None) => false
    case (None, Some(_)) => term.nulls.NullsFirst?
    case (Some(_), None) => term.nulls.NullsLast?
    case (Some(x), Some(y)) => if term.direction.Asc? then x < y else y < x
  }

  /** The lexicographic order of `SortPlan.apply` on the values of two rows. */
  predicate KeyBefore(terms: seq<ResolvedTerm>, a: Key, b: Key)
    requires |a| == |b| == |terms|
  {
    terms != [] &&
    (CellBefore(terms[0], a[0], b[0]) ||
     (a[0] == b[0] && KeyBefore(terms[1..], a[1..], b[1..])))
  }

  /** `SortPlan.values_from`. */
  function KeyOf(terms: seq<ResolvedTerm>, row: Row): (key: Key)
    ensures |key| == |terms|
  {
    seq(|terms|, i requires 0 <= i < |terms| => row.At(terms[i].field.column))
  }

  predicate RowBefore(terms: seq<ResolvedTerm>, a: Row, b: Row) {
    KeyBefore(terms, KeyOf(terms, a), KeyOf(terms, b))
  }

  lemma {:induction false} KeyOrderIrreflexive(terms: seq<ResolvedTerm>, a: Key)
    requires |a| == |terms|
    ensures !KeyBefore(terms, a, a)
  {
    if terms != [] {
      KeyOrderIrreflexive(terms[1..], a[1..]);
    }
  }

  lemma {:induction false} KeyOrderTransitive(terms: seq<ResolvedTerm>, a: Key, b: Key, c: Key)
    requires |a| == |b| == |c| == |terms|
    requires KeyBefore(terms, a, b) && KeyBefore(terms, b, c)
    ensures KeyBefore(terms, a, c)
  {
    if a[0] == b[0] == c[0] {
      KeyOrderIrreflexive(terms[..1], a[..1]);
      KeyOrderTransitive(terms[1..], a[1..], b[1..], c[1..]);
    }
  }

  lemma {:induction false} KeyOrderTotal(terms: seq<ResolvedTerm>, a: Key, b: Key)
    requires |a| == |b| == |terms|
    ensures a == b || KeyBefore(terms, a, b) || KeyBefore(terms, b, a)
  {
    if terms == [] {
    } else if a[0] == b[0] {
      KeyOrderTotal(terms[1..], a[1..], b[1..]);
      assert a == [a[0]] + a[1..] && b == [b[0]] + b[1..];
    }
  }

  lemma {:induction false} KeyOrderAsymmetric(terms: seq<ResolvedTerm>, a: Key, b: Key)
    requires |a| == |b| == |terms|
    requires KeyBefore(terms, a, b)
    ensures !KeyBefore(terms, b, a)
  {
    if KeyBefore(terms, b, a) {
      KeyOrderTransitive(terms, a, b, a);
      KeyOrderIrreflexive(terms, a);
    }
  }

  // ---------------------------------------------------------------- boundary

  /** `ResolvedSortTerm.equality`. */
  function Equality(term: ResolvedTerm, value: Cell): Criterion {
    match value
    case None => IsNull(term.field.column)
    case Some(v) => Equal(term.field.column, v)
  }

  /** `ResolvedSortTerm.after`. */
  function After(term: ResolvedTerm, value: Cell): Criterion {
    match value
    case None => if term.nulls.NullsFirst? then IsNotNull(term.field.column) else Never
    case Some(v) =>
      var comparison :=
        if term.direction.Desc? then Less(term.field.column, v) else Greater(term.field.column, v);
      if term.nulls.NullsLast? then Or([IsNull(term.field.column), comparison]) else comparison
  }

  function EqualPrefix(terms: seq<ResolvedTerm>, values: Key): seq<Criterion>
    requires |terms| == |values|
  {
    seq(|terms|, i requires 0 <= i < |terms| => Equality(terms[i], values[i]))
  }

  function Alternatives(terms: seq<ResolvedTerm>, values: Key): seq<Criterion>
    requires |terms| == |values|
  {
    seq(|terms|, i requires 0 <= i < |terms| =>
      And(EqualPrefix(terms[..i], values[..i]) + [After(terms[i], values[i])]))
  }

  /** The OR-of-ANDs that `SortPlan.boundary` builds for a cursor of the right length. */
  function BoundaryCriterion(terms: seq<ResolvedTerm>, values: Key): Criterion
    requires |terms| == |values|
  {
    Or(Alternatives(terms, values))
  }

  /** `SortPlan.boundary`: refuses a cursor of the wrong length, else grows the two lists term by term. */
  method Boundary(terms: seq<ResolvedTerm>, values: Key) returns (r: Result<Criterion, string>)
    ensures r.Failure? <==> |values| != |terms|
    ensures r.Success? ==> r.value == BoundaryCriterion(terms, values)
    ensures r.Success? ==>
      forall row :: Keeps(r.value, row) <==> KeyBefore(terms, values, KeyOf(terms, row))
  {
    if |values| != |terms| {
      return Failure("cursor value count does not match the active sorting");
    }
    var alternatives: seq<Criterion> := [];
    var equalPrefix: seq<Criterion> := [];
    for i := 0 to |terms|
      invariant equalPrefix == EqualPrefix(terms[..i], values[..i])
      invariant alternatives == Alternatives(terms, values)[..i]
    {
      alternatives := alternatives + [And(equalPrefix + [After(terms[i], values[i])])];
      equalPrefix := equalPrefix + [Equality(terms[i], values[i])];
    }
    forall row ensures
        Keeps(BoundaryCriterion(terms, values), row) <==> KeyBefore(terms, values, KeyOf(terms, row))
    {
      BoundaryExact(terms, values, row);
    }
    return Success(Or(alternatives));
  }

  lemma {:induction false} TermCriteriaExact(term: ResolvedTerm, value: Cell, row: Row)
    ensures Keeps(Equality(term, value), row) <==> value == row.At(term.field.column)
    ensures Keeps(After(term, value), row) <==> CellBefore(term, value, row.At(term.field.column))
  {
    if value.Some? && term.nulls.NullsLast? {
      DisjunctionKeeps(After(term, value).operands, row);
    }
  }

  predicate SplitsAt(terms: seq<ResolvedTerm>, a: Key, b: Key, i: nat)
    requires |a| == |b| == |terms|
  {
    i < |terms| && a[..i] == b[..i] && CellBefore(terms[i], a[i], b[i])
  }

  lemma {:induction false} KeyBeforeSplits(terms: seq<ResolvedTerm>, a: Key, b: Key)
    requires |a| == |b| == |terms|
    ensures KeyBefore(terms, a, b) <==> exists i: nat :: SplitsAt(terms, a, b, i)
  {
    if terms != [] {
      KeyBeforeSplits(terms[1..], a[1..], b[1..]);
      if CellBefore(terms[0], a[0], b[0]) {
        assert SplitsAt(terms, a, b, 0);
      }
      forall i: nat | SplitsAt(terms[1..], a[1..], b[1..], i) && a[0] == b[0]
        ensures SplitsAt(terms, a, b, i + 1)
      {
        assert a[..i + 1] == [a[0]] + a[1..][..i] && b[..i + 1] == [b[0]] + b[1..][..i];
      }
      forall i: nat | SplitsAt(terms, a, b, i) && i > 0
        ensures a[0] == b[0] && SplitsAt(terms[1..], a[1..], b[1..], i - 1)
      {
        assert a[0] == a[..i][0] && b[0] == b[..i][0];
        assert a[1..][..i - 1] == a[..i][1..] && b[1..][..i - 1] == b[..i][1..];
      }
    }
  }

  lemma {:induction false} AlternativeExact(terms: seq<ResolvedTerm>, values: Key, row: Row, i: nat)
    requires |terms| == |values| && i < |terms|
    ensures Keeps(Alternatives(terms, values)[i], row) <==> SplitsAt(terms, values, KeyOf(terms, row), i)
  {
    var key := KeyOf(terms, row);
    var criteria := EqualPrefix(terms[..i], values[..i]) + [After(terms[i], values[i])];
    ConjunctionKeeps(criteria, row);
    TermCriteriaExact(terms[i], values[i], row);
    forall j | 0 <= j < i ensures Keeps(criteria[j], row) <==> values[j] == key[j] {
      assert criteria[j] == Equality(terms[j], values[j]);
      TermCriteriaExact(terms[j], values[j], row);
    }
    assert criteria[i] == After(terms[i], values[i]);
    assert values[..i] == key[..i] <==> forall j :: 0 <= j < i ==> values[j] == key[j];
  }

  /** Under three-valued logic the boundary keeps a row exactly when it is strictly after the cursor. */
  lemma {:induction false} BoundaryExact(terms: seq<ResolvedTerm>, values: Key, row: Row)
    requires |terms| == |values|
    ensures Keeps(BoundaryCriterion(terms, values), row) <==> KeyBefore(terms, values, KeyOf(terms, row))
  {
    var alternatives := Alternatives(terms, values);
    DisjunctionKeeps(alternatives, row);
    KeyBeforeSplits(terms, values, KeyOf(terms, row));
    forall i: nat | i < |terms|
      ensures Keeps(alternatives[i], row) <==> SplitsAt(terms, values, KeyOf(terms, row), i)
    {
      AlternativeExact(terms, values, row, i);
    }
  }

  // ---------------------------------------------------------------- terms as text

  predicate IsSign(c: char) {
    c in {'-', '+'}
  }

  /** `SortTerm.parse`. */
  function ParseTerm(text: string): Result<SortTerm, SortError> {
    var value := Strip(text);
    if value == "" then Failure(EmptyCriterion)
    else
      var signed := IsSign(value[0]);
      var field := if signed then value[1..] else value;
      if field == "" then Failure(MissingFieldName)
      else Success(SortTerm(field, if value[0] == '-' then Desc else Asc, None))
  }

  /** `SortTerm.external_value`: the null placement is not part of the text. */
  function ExternalValue(term: SortTerm): string {
    if term.direction.Desc? then "-" + term.field else term.field
  }

  /** A field name whose text form is read back as the same name in that direction. */
  predicate Readable(field: string, direction: Direction) {
    field != "" && !IsSpace(field[|field| - 1]) &&
    (direction.Asc? ==> !IsSpace(field[0]) && !IsSign(field[0]))
  }

  /** Text form and parser are inverse, up to the null placement, for exactly the readable names. */
  lemma {:induction false} ParseTermRoundTrip(term: SortTerm)
    ensures ParseTerm(ExternalValue(term)) == Success(term.(nulls := None)) <==> Readable(term.field, term.direction)
  {
    var text := ExternalValue(term);
    StripLeftShrinks(text);
    StripRightFixed(StripLeft(text));
    if term.direction.Desc? {
      assert text[0] == '-' && text[1..] == term.field;
      assert StripLeft(text) == text;
    }
    if !Readable(term.field, term.direction) && ParseTerm(text).Success? {
      assert |ParseTerm(text).value.field| < |term.field|;
    }
  }

  // ---------------------------------------------------------------- registry

  datatype SortError =
    | EmptyCriterion
    | MissingFieldName
    | DuplicateField(name: string)
    | UnsupportedField(name: string)

  datatype Registry = Registry(
    name: string, fields: map<string, SortField>, defaultTerms: seq<SortTerm>,
    tieBreaker: SortTerm, tieBreakerWasString: bool)
  {
    /** What `SortRegistry.__init__` establishes. */
    ghost predicate Valid() {
      && (forall n :: n in fields ==> fields[n].name == n)
      && defaultTerms != []
      && !HasOffence(this, defaultTerms)
      && tieBreaker.field in fields
      && !fields[tieBreaker.field].nullable
      && fields[tieBreaker.field].unique
    }

    function ResolveTerm(term: SortTerm): ResolvedTerm
      requires term.field in fields
    {
      var field := fields[term.field];
      ResolvedTerm(field, term.direction,
                   if term.nulls.Some? then term.nulls.value else field.defaultNulls)
    }
  }

  datatype PlanTerm = PlanTerm(field: string, direction: Direction, nulls: NullPlacement)

  /** The payload the plan fingerprint is a digest of; the digest itself stays a parameter. */
  datatype PlanIdentity = PlanIdentity(registry: string, terms: seq<PlanTerm>)

  datatype SortPlan = SortPlan(terms: seq<ResolvedTerm>, fingerprint: string)

  function Identity(registry: string, terms: seq<ResolvedTerm>): PlanIdentity {
    PlanIdentity(registry, seq(|terms|, i requires 0 <= i < |terms| =>
      PlanTerm(terms[i].field.name, terms[i].direction, terms[i].nulls)))
  }

  function FieldNames(terms: seq<SortTerm>): set<string> {
    set i | 0 <= i < |terms| :: terms[i].field
  }

  predicate Offends(reg: Registry, terms: seq<SortTerm>, i: nat)
    requires i < |terms|
  {
    terms[i].field in FieldNames(terms[..i]) || terms[i].field !in reg.fields
  }

  function Offence(reg: Registry, terms: seq<SortTerm>, i: nat): SortError
    requires i < |terms|
  {
    if terms[i].field in FieldNames(terms[..i]) then DuplicateField(terms[i].field)
    else UnsupportedField(terms[i].field)
  }

  ghost predicate HasOffence(reg: Registry, terms: seq<SortTerm>) {
    exists i :: 0 <= i < |terms| && Offends(reg, terms, i)
  }

  /** The terms of the plan: the requested ones in order, then the tie-breaker unless it was requested. */
  function PlanTerms(reg: Registry, terms: seq<SortTerm>): (plan: seq<ResolvedTerm>)
    requires terms != [] && reg.tieBreaker.field in reg.fields
    requires forall i :: 0 <= i < |terms| ==> terms[i].field in reg.fields
  {
    var requested := seq(|terms|, i requires 0 <= i < |terms| => reg.ResolveTerm(terms[i]));
    if reg.tieBreaker.field in FieldNames(terms) then requested
    else
      var tie := reg.ResolveTerm(reg.tieBreaker);
      requested + [if reg.tieBreakerWasString then tie.(direction := terms[|terms| - 1].direction) else tie]
  }

  /** `SortRegistry.resolve`. */
  method Resolve(reg: Registry, terms: seq<SortTerm>, digest: PlanIdentity -> string)
    returns (r: Result<SortPlan, SortError>)
    requires reg.Valid()
    ensures var wanted := if terms == [] then reg.defaultTerms else terms;
      match r
      case Success(plan) =>
        && !HasOffence(reg, wanted)
        && (forall i :: 0 <= i < |wanted| ==> wanted[i].field in reg.fields)
        && plan.terms == PlanTerms(reg, wanted)
        && plan.fingerprint == digest(Identity(reg.name, plan.terms))
      case Failure(error) =>
        exists i :: 0 <= i < |wanted| && Offends(reg, wanted, i) && error == Offence(reg, wanted, i) &&
          forall j :: 0 <= j < i ==> !Offends(reg, wanted, j)
  {
    var wanted := if terms == [] then reg.defaultTerms else terms;
    var seen: set<string> := {};
    var resolved: seq<ResolvedTerm> := [];
    for i := 0 to |wanted|
      invariant seen == FieldNames(wanted[..i])
      invariant forall j :: 0 <= j < i ==> !Offends(reg, wanted, j)
      invariant |resolved| == i
      invariant forall j :: 0 <= j < i ==>
        wanted[j].field in reg.fields && resolved[j] == reg.ResolveTerm(wanted[j])
    {
      var term := wanted[i];
      assert Offends(reg, wanted, i) <==> term.field in seen || term.field !in reg.fields;
      if term.field in seen {
        return Failure(DuplicateField(term.field));
      }
      assert wanted[..i + 1] == wanted[..i] + [term];
      assert FieldNames(wanted[..i + 1]) == FieldNames(wanted[..i]) + {term.field} by {
        FieldNamesAppend(wanted[..i], term);
      }
      seen := seen + {term.field};
      if term.field !in reg.fields {
        assert Offends(reg, wanted, i);
        return Failure(UnsupportedField(term.field));
      }
      resolved := resolved + [reg.ResolveTerm(term)];
    }
    assert wanted[..|wanted|] == wanted;
    if reg.tieBreaker.field !in seen {
      var tie := reg.ResolveTerm(reg.tieBreaker);
      var direction := tie.direction;
      if reg.tieBreakerWasString {
        direction := resolved[|resolved| - 1].direction;
      }
      resolved := resolved + [ResolvedTerm(tie.field, direction, tie.nulls)];
    }
    assert resolved == PlanTerms(reg, wanted);
    return Success(SortPlan(resolved, digest(Identity(reg.name, resolved))));
  }

  lemma {:induction false} FieldNamesAppend(terms: seq<SortTerm>, term: SortTerm)
    ensures FieldNames(terms + [term]) == FieldNames(terms) + {term.field}
  {
    var longer := terms + [term];
    assert longer[|terms|] == term;
    forall i | 0 <= i < |terms| ensures terms[i].field in FieldNames(longer) {
      assert longer[i] == terms[i];
    }
  }

  // ---------------------------------------------------------------- determinism

  /** What NOT NULL and UNIQUE mean for a table: UNIQUE lets any number of rows hold NULL. */
  ghost predicate Constrained(table: set<Row>, field: SortField) {
    && (!field.nullable ==> forall r :: r in table ==> r.At(field.column).Some?)
    && (field.unique ==> forall r, s :: r in table && s in table && r != s ==>
          r.At(field.column) != s.At(field.column) || r.At(field.column).None?)
  }

  predicate Deterministic(terms: seq<ResolvedTerm>) {
    exists i :: 0 <= i < |terms| && terms[i].field.unique && !terms[i].field.nullable
  }

  ghost predicate ConstrainedFor(table: set<Row>, terms: seq<ResolvedTerm>) {
    forall i :: 0 <= i < |terms| ==> Constrained(table, terms[i].field)
  }

  /** Every plan the registry resolves sorts by its unique non-null tie-breaker somewhere. */
  lemma {:induction false} ResolvedPlansAreDeterministic(reg: Registry, terms: seq<SortTerm>)
    requires reg.Valid() && terms != [] && !HasOffence(reg, terms)
    ensures forall i :: 0 <= i < |terms| ==> terms[i].field in reg.fields
    ensures Deterministic(PlanTerms(reg, terms))
  {
    forall i | 0 <= i < |terms| ensures terms[i].field in reg.fields {
      assert !Offends(reg, terms, i);
    }
    var plan := PlanTerms(reg, terms);
    if reg.tieBreaker.field in FieldNames(terms) {
      var i :| 0 <= i < |terms| && terms[i].field == reg.tieBreaker.field;
      assert plan[i].field == reg.fields[reg.tieBreaker.field];
    } else {
      assert plan[|terms|].field == reg.fields[reg.tieBreaker.field];
    }
  }

  /** With such a plan any two distinct rows of a table are strictly ordered, one way only. */
  lemma {:induction false} RowOrderTotal(table: set<Row>, terms: seq<ResolvedTerm>, r: Row, s: Row)
    requires Deterministic(terms) && ConstrainedFor(table, terms)
    requires r in table && s in table && r != s
    ensures KeyOf(terms, r) != KeyOf(terms, s)
    ensures RowBefore(terms, r, s) <==> !RowBefore(terms, s, r)
  {
    var i :| 0 <= i < |terms| && terms[i].field.unique && !terms[i].field.nullable;
    assert KeyOf(terms, r)[i] != KeyOf(terms, s)[i];
    KeyOrderTotal(terms, KeyOf(terms, r), KeyOf(terms, s));
    if RowBefore(terms, r, s) {
      KeyOrderAsymmetric(terms, KeyOf(terms, r), KeyOf(terms, s));
    }
  }

  /** A unique but nullable tie-breaker would not do: two rows can share a sort key. */
  lemma {:induction false} NullableTieBreakerTies()
    ensures exists table: set<Row>, terms: seq<ResolvedTerm>, r: Row, s: Row ::
      && |terms| == 1 && terms[0].field.unique && ConstrainedFor(table, terms)
      && r in table && s in table && r != s && KeyOf(terms, r) == KeyOf(terms, s)
  {
    var terms := [ResolvedTerm(SortField("code", "code", NullsLast, true, true), Asc, NullsLast)];
    var r, s := Row(map["code" := None, "id" := Some(1)]), Row(map["code" := None, "id" := Some(2)]);
    assert r.cells["id"] != s.cells["id"];
    assert ConstrainedFor({r, s}, terms);
    assert KeyOf(terms, r) == KeyOf(terms, s);
  }

  /** Some column the plan sorts by is declared both unique and NOT NULL, maybe through two fields. */
  predicate Separating(terms: seq<ResolvedTerm>) {
    exists i, j :: 0 <= i < |terms| && 0 <= j < |terms| && terms[i].field.column == terms[j].field.column
                   && terms[i].field.unique && !terms[j].field.nullable
  }

  ghost predicate Tied(table: set<Row>, terms: seq<ResolvedTerm>, r: Row, s: Row) {
    && ConstrainedFor(table, terms) && r in table && s in table && r != s
    && !RowBefore(terms, r, s) && !RowBefore(terms, s, r)
  }

  predicate NotNullColumn(terms: seq<ResolvedTerm>, column: string) {
    exists i :: 0 <= i < |terms| && terms[i].field.column == column && !terms[i].field.nullable
  }

  /** A column name longer than any the plan sorts by. */
  function OtherColumn(terms: seq<ResolvedTerm>): (name: string)
    ensures forall i :: 0 <= i < |terms| ==> |terms[i].field.column| < |name|
  {
    if terms == [] then "_"
    else
      var name := OtherColumn(terms[1..]) + terms[0].field.column;
      assert forall i :: 0 < i < |terms| ==> terms[i] == terms[1..][i - 1];
      name
  }

  /** A row with 0 wherever NULL is not allowed, NULL elsewhere, and `n` in a column the plan does not sort by. */
  function PlainRow(terms: seq<ResolvedTerm>, n: int): Row {
    Row((map i | 0 <= i < |terms| ::
           terms[i].field.column := if NotNullColumn(terms, terms[i].field.column) then Some(0) else None)
        [OtherColumn(terms) := Some(n)])
  }

  lemma {:induction false} PlainRowAt(terms: seq<ResolvedTerm>, n: int, i: nat)
    requires i < |terms|
    ensures PlainRow(terms, n).At(terms[i].field.column)
         == if NotNullColumn(terms, terms[i].field.column) then Some(0) else None
  {
    assert terms[i].field.column != OtherColumn(terms);
  }

  /** A failing table, unless the plan is separating: two rows that no term tells apart. */
  lemma {:induction false} PlainRowsTie(terms: seq<ResolvedTerm>)
    requires !Separating(terms)
    ensures var r, s := PlainRow(terms, 1), PlainRow(terms, 2); Tied({r, s}, terms, r, s)
  {
    var r, s := PlainRow(terms, 1), PlainRow(terms, 2);
    assert r.At(OtherColumn(terms)) == Some(1) && s.At(OtherColumn(terms)) == Some(2);
    forall i | 0 <= i < |terms| ensures Constrained({r, s}, terms[i].field) {
      PlainRowAt(terms, 1, i);
      PlainRowAt(terms, 2, i);
    }
    forall i | 0 <= i < |terms| ensures KeyOf(terms, r)[i] == KeyOf(terms, s)[i] {
      PlainRowAt(terms, 1, i);
      PlainRowAt(terms, 2, i);
    }
    assert KeyOf(terms, r) == KeyOf(terms, s);
    KeyOrderIrreflexive(terms, KeyOf(terms, r));
  }

  /** The plan's order is total on every table that keeps its constraints exactly when the plan is separating. */
  lemma {:induction false} TotalIffSeparating(terms: seq<ResolvedTerm>)
    ensures (forall table: set<Row>, r: Row, s: Row :: !Tied(table, terms, r, s)) <==> Separating(terms)
    ensures Deterministic(terms) ==> Separating(terms)
  {
    if Separating(terms) {
      forall table: set<Row>, r: Row, s: Row | ConstrainedFor(table, terms) && r in table && s in table && r != s
        ensures !Tied(table, terms, r, s)
      {
        var i, j :| 0 <= i < |terms| && 0 <= j < |terms| && terms[i].field.column == terms[j].field.column
                    && terms[i].field.unique && !terms[j].field.nullable;
        assert Constrained(table, terms[i].field) && Constrained(table, terms[j].field);
        assert KeyOf(terms, r)[i] != KeyOf(terms, s)[i];
        KeyOrderTotal(terms, KeyOf(terms, r), KeyOf(terms, s));
      }
    } else {
      PlainRowsTie(terms);
    }
  }

  // ---------------------------------------------------------------- external values

  /** `SortPlan.external_values`. */
  function ExternalValues(plan: seq<ResolvedTerm>): seq<string> {
    seq(|plan|, i requires 0 <= i < |plan| => ExternalValue(TermOf(plan[i])))
  }

  function TermOf(term: ResolvedTerm): SortTerm {
    SortTerm(term.field.name, term.direction, Some(term.nulls))
  }

  function ParseAll(texts: seq<string>): Result<seq<SortTerm>, SortError> {
    if texts == [] then Success([])
    else
      var first :- ParseTerm(texts[0]);
      var rest :- ParseAll(texts[1..]);
      Success([first] + rest)
  }

  lemma {:induction false} NoOffenceKnowsFields(reg: Registry, terms: seq<SortTerm>)
    requires !HasOffence(reg, terms)
    ensures forall i :: 0 <= i < |terms| ==> terms[i].field in reg.fields
  {
    forall i | 0 <= i < |terms| ensures terms[i].field in reg.fields {
      assert !Offends(reg, terms, i);
    }
  }

  /** `SortRegistry.parse` of a list of texts: the plan, or nothing where it raises. */
  ghost function ParsePlan(reg: Registry, texts: seq<string>): Option<seq<ResolvedTerm>>
    requires reg.Valid()
  {
    var parsed := ParseAll(texts);
    if parsed.Failure? then None
    else
      var terms := if parsed.value == [] then reg.defaultTerms else parsed.value;
      if HasOffence(reg, terms) then None
      else
        NoOffenceKnowsFields(reg, terms);
        Some(PlanTerms(reg, terms))
  }

  lemma {:induction false} ParseAllEach(texts: seq<string>)
    ensures ParseAll(texts).Success? <==> forall i :: 0 <= i < |texts| ==> ParseTerm(texts[i]).Success?
    ensures ParseAll(texts).Success? ==>
      && |ParseAll(texts).value| == |texts|
      && forall i :: 0 <= i < |texts| ==> ParseTerm(texts[i]) == Success(ParseAll(texts).value[i])
  {
    if texts != [] {
      ParseAllEach(texts[1..]);
      assert forall i :: 0 < i < |texts| ==> texts[i] == texts[1..][i - 1];
      assert forall i :: 0 <= i < |texts| - 1 ==> texts[1..][i] == texts[i + 1];
    }
  }

  /** The same terms without their null placements. */
  function Reparsed(plan: seq<ResolvedTerm>): seq<SortTerm> {
    seq(|plan|, i requires 0 <= i < |plan| => SortTerm(plan[i].field.name, plan[i].direction, None))
  }

  predicate AllReadable(plan: seq<ResolvedTerm>) {
    forall i :: 0 <= i < |plan| ==> Readable(plan[i].field.name, plan[i].direction)
  }

  /** Parsing a plan's external values gives its terms without placements, for exactly the readable names. */
  lemma {:induction false} ReparsedIffReadable(plan: seq<ResolvedTerm>)
    ensures ParseAll(ExternalValues(plan)) == Success(Reparsed(plan)) <==> AllReadable(plan)
  {
    var texts := ExternalValues(plan);
    ParseAllEach(texts);
    forall i | 0 <= i < |plan|
      ensures ParseTerm(texts[i]) == Success(Reparsed(plan)[i]) <==> Readable(plan[i].field.name, plan[i].direction)
    {
      ParseTermRoundTrip(TermOf(plan[i]));
    }
    if AllReadable(plan) {
      assert ParseAll(texts).value == Reparsed(plan);
    }
  }

  /** A plan as `resolve` makes them: each field is the registry's under its own name. */
  predicate FromRegistry(reg: Registry, plan: seq<ResolvedTerm>) {
    forall i :: 0 <= i < |plan| ==> plan[i].field.name in reg.fields && reg.fields[plan[i].field.name] == plan[i].field
  }

  lemma {:induction false} PlansFromRegistry(reg: Registry, terms: seq<SortTerm>)
    requires reg.Valid() && terms != [] && forall i :: 0 <= i < |terms| ==> terms[i].field in reg.fields
    ensures FromRegistry(reg, PlanTerms(reg, terms))
    ensures forall i :: 0 <= i < |terms| ==> PlanTerms(reg, terms)[i] == reg.ResolveTerm(terms[i])
  {
  }

  /** If the texts parse to anything else, the plan is another one. */
  lemma {:induction false} OnlyOwnTermsGiveThePlan(reg: Registry, plan: seq<ResolvedTerm>, parsed: seq<SortTerm>)
    requires reg.Valid() && FromRegistry(reg, plan) && parsed != [] && |parsed| == |plan|
    requires forall i :: 0 <= i < |parsed| ==> parsed[i].field in reg.fields && parsed[i].nulls.None?
    requires PlanTerms(reg, parsed) == plan
    ensures parsed == Reparsed(plan)
  {
    PlansFromRegistry(reg, parsed);
    forall i | 0 <= i < |parsed| ensures parsed[i] == Reparsed(plan)[i] {
      assert plan[i] == reg.ResolveTerm(parsed[i]);
    }
  }

  /**
   * The external values of a plan parse back to that plan exactly when each term has its field's default null
   * placement and a name that is readable in its direction.
   */
  lemma {:induction false} ExternalValuesParseBack(reg: Registry, terms: seq<SortTerm>)
    requires reg.Valid() && terms != [] && !HasOffence(reg, terms)
    requires forall i :: 0 <= i < |terms| ==> terms[i].field in reg.fields
    ensures var plan := PlanTerms(reg, terms);
      ParsePlan(reg, ExternalValues(plan)) == Some(plan) <==>
        AllReadable(plan) && forall i :: 0 <= i < |plan| ==> plan[i].nulls == plan[i].field.defaultNulls
  {
    var plan := PlanTerms(reg, terms);
    var texts := ExternalValues(plan);
    ReparsedIffReadable(plan);
    ReparsedResolvesBack(reg, terms);
    if ParsePlan(reg, texts) == Some(plan) {
      var parsed := ParseAll(texts).value;
      ParseAllEach(texts);
      forall i | 0 <= i < |parsed| ensures parsed[i].field in reg.fields && parsed[i].nulls.None? {
        assert !Offends(reg, parsed, i);
        assert ParseTerm(texts[i]) == Success(parsed[i]);
      }
      PlansFromRegistry(reg, terms);
      OnlyOwnTermsGiveThePlan(reg, plan, parsed);
    }
  }

  /** A registry of one unique field. */
  function OneField(name: string): Registry {
    var term := SortTerm(name, Asc, None);
    Registry("one", map[name := SortField(name, "age", NullsLast, false, true)], [term], term, false)
  }

  lemma {:induction false} OneFieldValid(name: string, nulls: Option<NullPlacement>)
    ensures OneField(name).Valid() && !HasOffence(OneField(name), [SortTerm(name, Asc, nulls)])
  {
    var reg := OneField(name);
    var terms := [SortTerm(name, Asc, nulls)];
    assert FieldNames(terms[..0]) == {} && FieldNames(reg.defaultTerms[..0]) == {};
    assert !Offends(reg, terms, 0) && !Offends(reg, reg.defaultTerms, 0);
  }

  /** A name that starts with a sign is accepted as a field and read back as another: `-age` as `age` descending. */
  lemma {:induction false} SignedNameLost()
    ensures var reg, terms := OneField("-age"), [SortTerm("-age", Asc, None)];
      && reg.Valid() && !HasOffence(reg, terms)
      && ParseTerm(ExternalValue(terms[0])) == Success(SortTerm("age", Desc, None))
      && ParsePlan(reg, ExternalValues(PlanTerms(reg, terms))) == None
  {
    var reg, terms := OneField("-age"), [SortTerm("-age", Asc, None)];
    OneFieldValid("-age", None);
    assert terms[0].field in FieldNames(terms);
    var plan := PlanTerms(reg, terms);
    var texts := ExternalValues(plan);
    assert |plan| == 1 && texts == ["-age"];
    var parsed := [SortTerm("age", Desc, None)];
    assert StripLeft("-age") == "-age" && StripRight("-age") == "-age";
    assert texts[1..] == [];
    assert ParseTerm("-age") == Success(parsed[0]);
    assert ParseAll(texts[1..]) == Success([]);
    assert parsed + [] == parsed;
    assert ParseAll(texts) == Success(parsed);
    assert Offends(reg, parsed, 0);
  }

  /** And a placement other than the default is lost: the plan comes back with the default one. */
  lemma {:induction false} PlacementLost()
    ensures var reg, terms := OneField("age"), [SortTerm("age", Asc, Some(NullsFirst))];
      && reg.Valid() && !HasOffence(reg, terms)
      && ParsePlan(reg, ExternalValues(PlanTerms(reg, terms))) != Some(PlanTerms(reg, terms))
  {
    var reg, terms := OneField("age"), [SortTerm("age", Asc, Some(NullsFirst))];
    OneFieldValid("age", Some(NullsFirst));
    assert terms[0].field in FieldNames(terms);
    ExternalValuesParseBack(reg, terms);
    assert PlanTerms(reg, terms)[0].nulls == NullsFirst;
  }

  /** The terms without placements resolve to the plan exactly when every null placement is its field's default. */
  lemma {:induction false} ReparsedResolvesBack(reg: Registry, terms: seq<SortTerm>)
    requires reg.Valid() && terms != [] && !HasOffence(reg, terms)
    requires forall i :: 0 <= i < |terms| ==> terms[i].field in reg.fields
    ensures var plan := PlanTerms(reg, terms);
      && !HasOffence(reg, Reparsed(plan))
      && (forall i :: 0 <= i < |plan| ==> Reparsed(plan)[i].field in reg.fields)
      && (PlanTerms(reg, Reparsed(plan)) == plan <==>
          forall i :: 0 <= i < |plan| ==> plan[i].nulls == plan[i].field.defaultNulls)
  {
    var plan := PlanTerms(reg, terms);
    var again := Reparsed(plan);
    assert forall i :: 0 <= i < |terms| ==> plan[i].field == reg.fields[terms[i].field];
    assert forall i :: 0 <= i < |terms| ==> again[i].field == terms[i].field;
    if |plan| > |terms| {
      assert again[|terms|].field == reg.tieBreaker.field;
    }
    forall i | 0 <= i < |again| ensures !Offends(reg, again, i) && again[i].field in reg.fields {
      forall j | 0 <= j < i ensures again[j].field != again[i].field {
        if i < |terms| {
          assert !Offends(reg, terms, i) && terms[..i][j].field in FieldNames(terms[..i]);
        } else {
          assert terms[j].field in FieldNames(terms);
        }
      }
    }
    assert reg.tieBreaker.field in FieldNames(again) by {
      if reg.tieBreaker.field in FieldNames(terms) {
        var i :| 0 <= i < |terms| && terms[i].field == reg.tieBreaker.field;
        assert again[i].field == reg.tieBreaker.field;
      }
    }
    var resolved := PlanTerms(reg, again);
    assert |resolved| == |plan|;
    assert forall i :: 0 <= i < |plan| ==> resolved[i] == plan[i].(nulls := plan[i].field.defaultNulls);
    if forall i :: 0 <= i < |plan| ==> plan[i].nulls == plan[i].field.defaultNulls {
      assert resolved == plan;
    }
    if resolved == plan {
      forall i | 0 <= i < |plan| ensures plan[i].nulls == plan[i].field.defaultNulls {
        assert resolved[i] == plan[i];
      }
    }
  }
}
