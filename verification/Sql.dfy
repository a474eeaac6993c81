/** The part of SQL the keyset queries use: nullable cells, criteria, and WHERE in three-valued logic. */
module Sql {
  import opened Wrappers

  type Cell = Option<int>

  datatype Row = Row(cells: map<string, Cell>) {
    // A column the row lacks reads as NULL.
    function At(column: string): Cell {
      if column in cells then cells[column] else None
    }
  }

  datatype Truth = True | False | Unknown

  datatype Criterion =
    | IsNull(column: string)
    | IsNotNull(column: string)
    | Equal(column: string, value: int)
    | Less(column: string, value: int)
    | Greater(column: string, value: int)
    | Never
    | And(operands: seq<Criterion>)
    | Or(operands: seq<Criterion>)

  function FromBool(b: bool): Truth {
    if b then True else False
  }

  // A comparison with NULL is neither true nor false.
  function Compare(cell: Cell, holds: int -> bool): Truth {
    match cell
    case None => Unknown
    case Some(x) => FromBool(holds(x))
  }

  function Holds(c: Criterion, row: Row): Truth
    decreases c, 0
  {
    match c
    case IsNull(col) => FromBool(row.At(col).None?)
    case IsNotNull(col) => FromBool(row.At(col).Some?)
    case Equal(col, v) => Compare(row.At(col), x => x == v)
    case Less(col, v) => Compare(row.At(col), x => x < v)
    case Greater(col, v) => Compare(row.At(col), x => x > v)
    case Never => False
    case And(operands) => Conjunction(operands, row)
    case Or(operands) => Disjunction(operands, row)
  }

  function Conjunction(cs: seq<Criterion>, row: Row): Truth
    decreases cs, 1
  {
    if cs == [] then True
    else
      var first, rest := Holds(cs[0], row), Conjunction(cs[1..], row);
      if first.False? || rest.False? then False
      else if first.Unknown? || rest.Unknown? then Unknown
      else True
  }

  function Disjunction(cs: seq<Criterion>, row: Row): Truth
    decreases cs, 1
  {
    if cs == [] then False
    else
      var first, rest := Holds(cs[0], row), Disjunction(cs[1..], row);
      if first.True? || rest.True? then True
      else if first.Unknown? || rest.Unknown? then Unknown
      else False
  }

  // WHERE keeps a row only when its criterion is TRUE; FALSE and UNKNOWN both drop it.
  predicate Keeps(c: Criterion, row: Row) {
    Holds(c, row).True?
  }

  lemma {:induction false} ConjunctionKeeps(cs: seq<Criterion>, row: Row)
    ensures Conjunction(cs, row).True? <==> forall i :: 0 <= i < |cs| ==> Keeps(cs[i], row)
    decreases cs
  {
    if cs == [] {
    } else {
      ConjunctionKeeps(cs[1..], row);
      assert forall i :: 0 < i < |cs| ==> cs[i] == cs[1..][i - 1];
      assert forall i :: 0 <= i < |cs[1..]| ==> cs[1..][i] == cs[i + 1];
    }
  }

  lemma {:induction false} DisjunctionKeeps(cs: seq<Criterion>, row: Row)
    ensures Disjunction(cs, row).True? <==> exists i :: 0 <= i < |cs| && Keeps(cs[i], row)
    decreases cs
  {
    if cs == [] {
    } else {
      DisjunctionKeeps(cs[1..], row);
      assert forall i :: 0 < i < |cs| ==> cs[i] == cs[1..][i - 1];
      assert forall i :: 0 <= i < |cs[1..]| ==> cs[1..][i] == cs[i + 1];
    }
  }
}
