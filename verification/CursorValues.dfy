/** The typed values that cursors carry, through JSON and back (database/pagination.py). */
module CursorValues {
  import opened Wrappers
  import opened CursorCodec

  datatype Float = Finite(d: Double) | NaN | Infinity(negative: bool)

  /**
   * Cursor values; a text-like value stands for its canonical text, and EnumValue is a member of an enumeration that
   * is no number or text itself.
   */
  datatype Value =
    | NoneValue
    | BoolValue(b: bool)
    | IntValue(i: int)
    | FloatValue(f: Float)
    | TextValue(s: string)
    | UuidValue(text: string)
    | DecimalValue(text: string)
    | DateTimeValue(text: string)
    | DateValue(text: string)
    | TimeValue(text: string)
    | BytesValue(data: Bytes)
    | IntervalValue(microseconds: int)
    | EnumValue(member: Value)
    | ListValue(items: seq<Value>)
    | TupleValue(items: seq<Value>)
    | DictValue(members: map<string, Value>)

  // ---------------------------------------------------------------- writing

  function Listed(items: Option<seq<Json>>): Option<Json> {
    if items.Some? then Some(JList(items.value)) else None
  }

  /** What the JSON library makes of a value on its own; `None` where it raises. */
  function Native(value: Value): Option<Json>
    decreases value
  {
    match value
    case NoneValue => Some(JNull)
    case BoolValue(b) => Some(JBool(b))
    case IntValue(i) => if Fits(i) then Some(JInt(i)) else None
    case FloatValue(Finite(d)) => Some(JFloat(d))
    case FloatValue(_) => Some(JNull)
    case TextValue(s) => Some(JText(s))
    case UuidValue(text) => Some(JText(text))
    case DateTimeValue(text) => Some(JText(text))
    case DateValue(text) => Some(JText(text))
    case TimeValue(text) => Some(JText(text))
    case DecimalValue(_) => None
    case BytesValue(_) => None
    case IntervalValue(_) => None
    case EnumValue(member) => Native(member)
    case ListValue(items) => Listed(NativeAll(items))
    case TupleValue(items) => Listed(NativeAll(items))
    case DictValue(members) =>
      if forall k <- members :: Native(members[k]).Some?
      then Some(JObject(map k <- members :: Native(members[k]).value))
      else None
  }

  function NativeAll(items: seq<Value>): Option<seq<Json>>
    decreases items
  {
    if items == [] then Some([])
    else
      var first, rest := Native(items[0]), NativeAll(items[1..]);
      if first.Some? && rest.Some? then Some([first.value] + rest.value) else None
  }

  /** `_serialize`, and then the JSON library: mappings are left to the library, with all they hold. */
  function Serialize(value: Value): Option<Json>
    decreases value
  {
    match value
    case DecimalValue(text) => Some(JText(text))
    case EnumValue(member) => Serialize(member)
    case ListValue(items) => Listed(SerializeAll(items))
    case TupleValue(items) => Listed(SerializeAll(items))
    case _ => Native(value)
  }

  function SerializeAll(items: seq<Value>): Option<seq<Json>>
    decreases items
  {
    if items == [] then Some([])
    else
      var first, rest := Serialize(items[0]), SerializeAll(items[1..]);
      if first.Some? && rest.Some? then Some([first.value] + rest.value) else None
  }

  /** The Python value of a JSON value. */
  function FromJson(json: Json): Value {
    match json
    case JNull => NoneValue
    case JBool(b) => BoolValue(b)
    case JInt(i) => IntValue(i)
    case JFloat(d) => FloatValue(Finite(d))
    case JText(s) => TextValue(s)
    case JList(items) => ListValue(FromJsonAll(items))
    case JObject(members) => DictValue(map k <- members :: FromJson(members[k]))
  }

  function FromJsonAll(items: seq<Json>): seq<Value> {
    if items == [] then [] else [FromJson(items[0])] + FromJsonAll(items[1..])
  }

  lemma {:induction false} FromJsonAllAt(items: seq<Json>)
    ensures |FromJsonAll(items)| == |items|
    ensures forall i :: 0 <= i < |items| ==> FromJsonAll(items)[i] == FromJson(items[i])
  {
    if items != [] {
      FromJsonAllAt(items[1..]);
    }
  }

  lemma {:induction false} SerializeAllAt(items: seq<Value>)
    ensures SerializeAll(items).Some? <==> forall i :: 0 <= i < |items| ==> Serialize(items[i]).Some?
    ensures SerializeAll(items).Some? ==> |SerializeAll(items).value| == |items|
    ensures SerializeAll(items).Some? ==>
      forall i :: 0 <= i < |items| ==> Serialize(items[i]) == Some(SerializeAll(items).value[i])
  {
    if items != [] {
      SerializeAllAt(items[1..]);
      assert forall i :: 0 < i < |items| ==> items[i] == items[1..][i - 1];
      assert forall i :: 0 <= i < |items[1..]| ==> items[1..][i] == items[i + 1];
    }
  }

  lemma {:induction false} NativeAllAt(items: seq<Value>)
    ensures NativeAll(items).Some? <==> forall i :: 0 <= i < |items| ==> Native(items[i]).Some?
    ensures NativeAll(items).Some? ==> |NativeAll(items).value| == |items|
    ensures NativeAll(items).Some? ==>
      forall i :: 0 <= i < |items| ==> Native(items[i]) == Some(NativeAll(items).value[i])
  {
    if items != [] {
      NativeAllAt(items[1..]);
      assert forall i :: 0 < i < |items| ==> items[i] == items[1..][i - 1];
      assert forall i :: 0 <= i < |items[1..]| ==> items[1..][i] == items[i + 1];
    }
  }

  // ---------------------------------------------------------------- Python's ==

  function Power2(n: int): real
    decreases if n < 0 then -n else n
  {
    if n == 0 then 1.0 else if n > 0 then 2.0 * Power2(n - 1) else Power2(n + 1) / 2.0
  }

  /** The number that a binary64 stands for. */
  function Real(d: Double): real {
    var size := if d.exponent == 0 then d.fraction as real * Power2(-1074)
      else (0x10_0000_0000_0000 + d.fraction) as real * Power2(d.exponent - 1075);
    if d.negative then -size else size
  }

  /** Booleans, integers and floats compare as numbers. */
  function Number(value: Value): Option<real> {
    match value
    case BoolValue(b) => Some(if b then 1.0 else 0.0)
    case IntValue(i) => Some(i as real)
    case FloatValue(Finite(d)) => Some(Real(d))
    case _ => None
  }

  predicate Equal(a: Value, b: Value)
    decreases a
  {
    if Number(a).Some? && Number(b).Some? then Number(a) == Number(b)
    else if a.FloatValue? && a.f.NaN? then false
    else if a.ListValue? && b.ListValue? then EqualAll(a.items, b.items)
    else if a.TupleValue? && b.TupleValue? then EqualAll(a.items, b.items)
    else if a.DictValue? && b.DictValue? then
      a.members.Keys == b.members.Keys && forall k <- a.members :: Equal(a.members[k], b.members[k])
    else a == b
  }

  predicate EqualAll(a: seq<Value>, b: seq<Value>)
    decreases a
  {
    |a| == |b| && forall i :: 0 <= i < |a| ==> Equal(a[i], b[i])
  }

  // ---------------------------------------------------------------- what JSON keeps

  /** The values JSON gives back as they were. */
  predicate Kept(value: Value) {
    match value
    case NoneValue => true
    case BoolValue(_) => true
    case IntValue(i) => Fits(i)
    case FloatValue(f) => f.Finite?
    case TextValue(_) => true
    case ListValue(items) => forall i :: 0 <= i < |items| ==> Kept(items[i])
    case DictValue(members) => forall k <- members :: Kept(members[k])
    case _ => false
  }

  lemma {:induction false} NativeKeeps(value: Value)
    requires Kept(value)
    ensures Native(value).Some? && FromJson(Native(value).value) == value && Equal(value, value)
    decreases value
  {
    match value
    case ListValue(items) =>
      forall i | 0 <= i < |items|
        ensures Native(items[i]).Some? && FromJson(Native(items[i]).value) == items[i] && Equal(items[i], items[i])
      {
        NativeKeeps(items[i]);
      }
      NativeAllAt(items);
      FromJsonAllAt(NativeAll(items).value);
      assert FromJsonAll(NativeAll(items).value) == items;
    case DictValue(members) =>
      forall k | k in members
        ensures Native(members[k]).Some? && FromJson(Native(members[k]).value) == members[k]
        ensures Equal(members[k], members[k])
      {
        NativeKeeps(members[k]);
      }
    case _ =>
  }

  lemma {:induction false} KeptReturns(value: Value)
    requires Kept(value)
    ensures Serialize(value).Some? && FromJson(Serialize(value).value) == value && Equal(value, value)
    decreases value
  {
    NativeKeeps(value);
    if value.ListValue? {
      var items := value.items;
      forall i | 0 <= i < |items| ensures Serialize(items[i]).Some? && FromJson(Serialize(items[i]).value) == items[i] {
        KeptReturns(items[i]);
      }
      SerializeAllAt(items);
      FromJsonAllAt(SerializeAll(items).value);
      assert FromJsonAll(SerializeAll(items).value) == items;
    }
  }

  lemma {:induction false} JsonIsKeptOrPlain(json: Json)
    ensures !FromJson(json).EnumValue? && !FromJson(json).TupleValue?
  {
  }

  lemma {:induction false} ItemDiffers(items: seq<Value>, json: seq<Json>, i: nat)
    requires |json| == |items| && i < |items|
    requires !Equal(items[i], FromJson(json[i])) && FromJson(json[i]) != items[i]
    ensures !Equal(ListValue(items), FromJson(JList(json))) && FromJson(JList(json)) != ListValue(items)
  {
    FromJsonAllAt(json);
  }

  lemma {:induction false} MemberDiffers(members: map<string, Value>, json: map<string, Json>, k: string)
    requires k in members && k in json
    requires !Equal(members[k], FromJson(json[k])) && FromJson(json[k]) != members[k]
    ensures !Equal(DictValue(members), FromJson(JObject(json))) && FromJson(JObject(json)) != DictValue(members)
  {
    assert FromJson(JObject(json)).members[k] == FromJson(json[k]);
  }

  lemma {:induction false} NativeDiffers(value: Value)
    requires !Kept(value) && Native(value).Some?
    ensures !Equal(value, FromJson(Native(value).value)) && FromJson(Native(value).value) != value
    decreases value
  {
    match value
    case ListValue(items) =>
      var i :| 0 <= i < |items| && !Kept(items[i]);
      NativeAllAt(items);
      NativeDiffers(items[i]);
      ItemDiffers(items, NativeAll(items).value, i);
    case DictValue(members) =>
      var k :| k in members && !Kept(members[k]);
      NativeDiffers(members[k]);
      MemberDiffers(members, Native(value).value.members, k);
    case EnumValue(_) => JsonIsKeptOrPlain(Native(value).value);
    case _ =>
  }

  /** Any other value comes back, if it does, as one that is not equal. */
  lemma {:induction false} OthersDiffer(value: Value)
    requires !Kept(value) && Serialize(value).Some?
    ensures !Equal(value, FromJson(Serialize(value).value)) && FromJson(Serialize(value).value) != value
    decreases value
  {
    match value
    case ListValue(items) =>
      var i :| 0 <= i < |items| && !Kept(items[i]);
      SerializeAllAt(items);
      OthersDiffer(items[i]);
      ItemDiffers(items, SerializeAll(items).value, i);
    case EnumValue(_) => JsonIsKeptOrPlain(Serialize(value).value);
    case DecimalValue(_) =>
    case TupleValue(_) =>
    case _ => NativeDiffers(value);
  }

  // ---------------------------------------------------------------- what can be written

  /** Lists, tuples and mappings are nested no deeper than `n`. */
  predicate ShallowValue(value: Value, n: nat)
    decreases value
  {
    match value
    case EnumValue(member) => ShallowValue(member, n)
    case ListValue(items) => n > 0 && forall i :: 0 <= i < |items| ==> ShallowValue(items[i], n - 1)
    case TupleValue(items) => n > 0 && forall i :: 0 <= i < |items| ==> ShallowValue(items[i], n - 1)
    case DictValue(members) => n > 0 && forall k <- members :: ShallowValue(members[k], n - 1)
    case _ => true
  }

  /** Whatever the library makes of a value it can write, as deep as the value is. */
  lemma {:induction false} NativeWritable(value: Value, n: nat)
    requires Native(value).Some?
    ensures AllFit(Native(value).value)
    ensures Shallow(Native(value).value, n) <==> ShallowValue(value, n)
    decreases value
  {
    match value
    case EnumValue(member) => NativeWritable(member, n);
    case ListValue(items) => NativeItemsWritable(items, n);
    case TupleValue(items) => NativeItemsWritable(items, n);
    case DictValue(members) =>
      forall k | k in members
        ensures AllFit(Native(members[k]).value)
        ensures n > 0 ==> (Shallow(Native(members[k]).value, n - 1) <==> ShallowValue(members[k], n - 1))
      {
        NativeWritable(members[k], if n > 0 then n - 1 else 0);
      }
      NativeMembersWritable(members, n);
    case _ =>
  }

  lemma {:induction false} NativeMembersWritable(members: map<string, Value>, n: nat)
    requires Native(DictValue(members)).Some?
    requires forall k <- members ::
      AllFit(Native(members[k]).value)
      && (n > 0 ==> (Shallow(Native(members[k]).value, n - 1) <==> ShallowValue(members[k], n - 1)))
    ensures AllFit(Native(DictValue(members)).value)
    ensures Shallow(Native(DictValue(members)).value, n) <==> ShallowValue(DictValue(members), n)
  {
    var json := Native(DictValue(members)).value.members;
    assert json.Keys == members.Keys;
    assert forall k <- members :: json[k] == Native(members[k]).value;
    if n > 0 {
      assert (forall k <- json :: Shallow(json[k], n - 1)) <==> forall k <- members :: ShallowValue(members[k], n - 1);
    }
  }

  lemma {:induction false} NativeItemsWritable(items: seq<Value>, n: nat)
    requires NativeAll(items).Some?
    ensures AllFit(JList(NativeAll(items).value))
    ensures Shallow(JList(NativeAll(items).value), n) <==>
      n > 0 && forall i :: 0 <= i < |items| ==> ShallowValue(items[i], n - 1)
    decreases items
  {
    NativeAllAt(items);
    var json := NativeAll(items).value;
    forall i | 0 <= i < |items|
      ensures AllFit(json[i]) && (n > 0 ==> (Shallow(json[i], n - 1) <==> ShallowValue(items[i], n - 1)))
    {
      NativeWritable(items[i], if n > 0 then n - 1 else 0);
    }
  }

  lemma {:induction false} SerializeWritable(value: Value, n: nat)
    requires Serialize(value).Some?
    ensures AllFit(Serialize(value).value)
    ensures Shallow(Serialize(value).value, n) <==> ShallowValue(value, n)
    decreases value
  {
    match value
    case EnumValue(member) => SerializeWritable(member, n);
    case ListValue(items) => ItemsWritable(items, n);
    case TupleValue(items) => ItemsWritable(items, n);
    case DecimalValue(_) =>
    case _ => NativeWritable(value, n);
  }

  lemma {:induction false} ItemsWritable(items: seq<Value>, n: nat)
    requires SerializeAll(items).Some?
    ensures AllFit(JList(SerializeAll(items).value))
    ensures Shallow(JList(SerializeAll(items).value), n) <==>
      n > 0 && forall i :: 0 <= i < |items| ==> ShallowValue(items[i], n - 1)
    decreases items
  {
    SerializeAllAt(items);
    var json := SerializeAll(items).value;
    forall i | 0 <= i < |items|
      ensures AllFit(json[i]) && (n > 0 ==> (Shallow(json[i], n - 1) <==> ShallowValue(items[i], n - 1)))
    {
      SerializeWritable(items[i], if n > 0 then n - 1 else 0);
    }
  }

  // ---------------------------------------------------------------- columns

  /** The Python type of a column; an Untyped column has none and takes the value as it is. */
  datatype ColumnType =
    | BoolColumn | IntColumn | FloatColumn | TextColumn | UuidColumn | DecimalColumn | DateTimeColumn | DateColumn
    | TimeColumn | BytesColumn | IntervalColumn | ListColumn | DictColumn | UntypedColumn
    | EnumColumn(members: set<Value>)

  /**
   * Python's constructors, `construct(column, json)` being the column type applied to the decoded value or `None` if
   * that raises; the texts that are some value's canonical form; and how deep a value may nest inside a cursor.
   */
  datatype Python = Python(
    construct: (ColumnType, Json) -> Option<Value>, canonical: (ColumnType, string) -> bool, nesting: nat)
  {
    /** What is assumed of them: built-in types copy, text-like types parse their canonical text, `time` takes none. */
    ghost predicate Sound() {
      && (forall b :: construct(BoolColumn, JBool(b)) == Some(BoolValue(b)))
      && (forall i :: construct(IntColumn, JInt(i)) == Some(IntValue(i)))
      && (forall d :: construct(FloatColumn, JFloat(d)) == Some(FloatValue(Finite(d))))
      && (forall s :: construct(TextColumn, JText(s)) == Some(TextValue(s)))
      && (forall items :: construct(ListColumn, JList(items)) == Some(ListValue(FromJsonAll(items))))
      && (forall members :: construct(DictColumn, JObject(members)) == Some(FromJson(JObject(members))))
      && (forall t :: canonical(UuidColumn, t) ==> construct(UuidColumn, JText(t)) == Some(UuidValue(t)))
      && (forall t :: canonical(DecimalColumn, t) ==> construct(DecimalColumn, JText(t)) == Some(DecimalValue(t)))
      && (forall t :: canonical(DateTimeColumn, t) ==> construct(DateTimeColumn, JText(t)) == Some(DateTimeValue(t)))
      && (forall t :: canonical(DateColumn, t) ==> construct(DateColumn, JText(t)) == Some(DateValue(t)))
      && (forall t :: canonical(TimeColumn, t) ==> construct(TimeColumn, JText(t)) == None)
    }

    /** A column holds NULL or values of its type; two members of an enumeration never have equal values. */
    predicate HasType(column: ColumnType, value: Value) {
      value.NoneValue? ||
      match column
      case BoolColumn => value.BoolValue?
      case IntColumn => value.IntValue?
      case FloatColumn => value.FloatValue?
      case TextColumn => value.TextValue?
      case UuidColumn => value.UuidValue? && canonical(column, value.text)
      case DecimalColumn => value.DecimalValue? && canonical(column, value.text)
      case DateTimeColumn => value.DateTimeValue? && canonical(column, value.text)
      case DateColumn => value.DateValue? && canonical(column, value.text)
      case TimeColumn => value.TimeValue? && canonical(column, value.text)
      case BytesColumn => value.BytesValue?
      case IntervalColumn => value.IntervalValue?
      case ListColumn => value.ListValue? || value.TupleValue?
      case DictColumn => value.DictValue?
      case UntypedColumn => true
      case EnumColumn(members) =>
        && value.EnumValue? && value.member in members
        && forall m <- members, n <- members :: Equal(m, n) ==> m == n
    }

    /** `_coerce` on the decoded value; `None` where the constructor raises. */
    ghost function Coerce(column: ColumnType, json: Json): Option<Value> {
      if json.JNull? then Some(NoneValue)
      else
        match column
        case UntypedColumn => Some(FromJson(json))
        case EnumColumn(members) =>
          if exists m <- members :: Equal(m, FromJson(json)) then
            var m :| m in members && Equal(m, FromJson(json));
            Some(EnumValue(m))
          else None
        case _ => construct(column, json)
    }

    /** A column's value, sent through a cursor. */
    ghost function Resent(column: ColumnType, value: Value): Option<Value> {
      var json := Serialize(value);
      if json.None? || !Shallow(json.value, nesting) then None else Coerce(column, json.value)
    }
  }

  /** The columns and values that a cursor carries. */
  predicate Carried(column: ColumnType, value: Value, nesting: nat) {
    value.NoneValue? ||
    (ShallowValue(value, nesting) &&
    match column
    case TimeColumn => false
    case BytesColumn => false
    case IntervalColumn => false
    case UuidColumn => true
    case DecimalColumn => true
    case DateTimeColumn => true
    case DateColumn => true
    case EnumColumn(_) => value.EnumValue? && !value.member.NoneValue? && Kept(value.member)
    case _ => Kept(value))
  }

  /** A column's value is restored exactly if it is carried: a check on the column's type and the value alone. */
  lemma {:induction false} CoerceRestores(py: Python, column: ColumnType, value: Value)
    requires py.Sound() && py.HasType(column, value)
    ensures py.Resent(column, value) == Some(value) <==> Carried(column, value, py.nesting)
  {
    if !value.NoneValue? {
      if column.EnumColumn? {
        EnumRestores(py, column, value);
      } else if column.UntypedColumn? || column.ListColumn? || column.DictColumn? {
        CopyRestores(py, column, value);
      } else {
        ScalarRestores(py, column, value);
      }
    }
  }

  lemma {:induction false} ScalarRestores(py: Python, column: ColumnType, value: Value)
    requires py.Sound() && py.HasType(column, value) && !value.NoneValue?
    requires !column.EnumColumn? && !column.UntypedColumn? && !column.ListColumn? && !column.DictColumn?
    ensures py.Resent(column, value) == Some(value) <==> Carried(column, value, py.nesting)
  {
  }

  lemma {:induction false} CopyRestores(py: Python, column: ColumnType, value: Value)
    requires py.Sound() && py.HasType(column, value)
    requires column.UntypedColumn? || column.ListColumn? || column.DictColumn?
    ensures py.Resent(column, value) == Some(value) <==> Kept(value) && ShallowValue(value, py.nesting)
  {
    if Serialize(value).Some? {
      SerializeWritable(value, py.nesting);
      CopiedFromJson(py, column, value);
      if !Kept(value) {
        OthersDiffer(value);
      }
    }
    if Kept(value) {
      KeptReturns(value);
    }
  }

  lemma {:induction false} CopiedFromJson(py: Python, column: ColumnType, value: Value)
    requires py.Sound() && py.HasType(column, value) && Serialize(value).Some?
    requires column.UntypedColumn? || column.ListColumn? || column.DictColumn?
    ensures py.Coerce(column, Serialize(value).value) == Some(FromJson(Serialize(value).value))
  {
  }

  lemma {:induction false} EnumRestores(py: Python, column: ColumnType, value: Value)
    requires py.HasType(column, value) && column.EnumColumn? && value.EnumValue?
    ensures py.Resent(column, value) == Some(value) <==> Carried(column, value, py.nesting)
  {
    var member := value.member;
    if Serialize(member).Some? {
      SerializeWritable(member, py.nesting);
    }
    if Kept(member) {
      KeptReturns(member);
    } else if Serialize(member).Some? {
      OthersDiffer(member);
    }
  }

  // ---------------------------------------------------------------- whole cursors

  /** The payload of a cursor of these values; `None` where one cannot be written. */
  function StateOf(fingerprint: string, values: seq<Value>, query: Option<string>): Option<TokenState> {
    var json := SerializeAll(values);
    if json.None? then None else Some(TokenState(fingerprint, json.value, query))
  }

  /** The cursor is written, read back as it was, and each value coerced to what it was. */
  ghost predicate Returned(
    codec: Codec, py: Python, columns: seq<ColumnType>, state: Option<TokenState>, values: seq<Value>)
    requires |columns| == |values|
  {
    && state.Some? && |state.value.values| == |values|
    && codec.EncodeState(state.value).Some?
    && codec.DecodeState(codec.EncodeState(state.value).value) == Success(state.value)
    && forall i :: 0 <= i < |values| ==> py.Coerce(columns[i], state.value.values[i]) == Some(values[i])
  }

  /** Signed, sent, verified and coerced, a cursor gives all its values back exactly when each of them is carried. */
  lemma {:induction false} CursorRestores(
    codec: Codec, py: Python, columns: seq<ColumnType>, values: seq<Value>, fingerprint: string, query: Option<string>)
    requires codec.Sound() && py.Sound() && codec.nesting == py.nesting + 2 && |columns| == |values|
    requires forall i :: 0 <= i < |values| ==> py.HasType(columns[i], values[i])
    ensures Returned(codec, py, columns, StateOf(fingerprint, values, query), values) <==>
      forall i :: 0 <= i < |values| ==> Carried(columns[i], values[i], py.nesting)
  {
    SerializeAllAt(values);
    forall i | 0 <= i < |values|
      ensures py.Resent(columns[i], values[i]) == Some(values[i]) <==> Carried(columns[i], values[i], py.nesting)
      ensures Serialize(values[i]).Some? ==> AllFit(Serialize(values[i]).value)
    {
      CoerceRestores(py, columns[i], values[i]);
      if Serialize(values[i]).Some? {
        SerializeWritable(values[i], py.nesting);
      }
    }
    var state := StateOf(fingerprint, values, query);
    if state.Some? {
      StateRoundTrip(codec, state.value);
    }
  }

  // ---------------------------------------------------------------- values that are lost

  /** A time is written as text, which `time` does not read; bytes and intervals are not written at all. */
  lemma {:induction false} TimesAndBytesLost(py: Python, noon: string)
    requires py.Sound() && py.canonical(TimeColumn, noon)
    ensures Serialize(TimeValue(noon)) == Some(JText(noon)) && py.Resent(TimeColumn, TimeValue(noon)) == None
    ensures Serialize(BytesValue([1])) == None && Serialize(IntervalValue(1)) == None
  {
  }

  /** A NaN comes back as NULL, and an integer of more than 64 bits is refused, also inside a mapping. */
  lemma {:induction false} WideNumbersLost(py: Python)
    ensures py.Resent(FloatColumn, FloatValue(NaN)) == Some(NoneValue)
    ensures py.Resent(IntColumn, IntValue(0x1_0000_0000_0000_0000)) == None
    ensures py.Resent(DictColumn, DictValue(map["n" := IntValue(0x1_0000_0000_0000_0000)])) == None
  {
    var members := map["n" := IntValue(0x1_0000_0000_0000_0000)];
    assert Native(members["n"]) == None;
  }

  /** `n` lists, one inside the other. */
  function Nested(n: nat): Value {
    if n == 0 then NoneValue else ListValue([Nested(n - 1)])
  }

  /** A list nested one deeper than the library allows inside a cursor is refused. */
  lemma {:induction false} DeepListsLost(py: Python)
    ensures Kept(Nested(py.nesting + 1)) && py.Resent(ListColumn, Nested(py.nesting + 1)) == None
  {
    NestedDepth(py.nesting + 1, py.nesting);
    if Serialize(Nested(py.nesting + 1)).Some? {
      SerializeWritable(Nested(py.nesting + 1), py.nesting);
    }
  }

  lemma {:induction false} NestedDepth(m: nat, n: nat)
    ensures Kept(Nested(m)) && (ShallowValue(Nested(m), n) <==> m <= n)
  {
    if m > 0 {
      NestedDepth(m - 1, if n > 0 then n - 1 else 0);
      assert Nested(m).items[0] == Nested(m - 1);
    }
  }

  lemma {:induction false} OneItem(value: Value)
    ensures SerializeAll([value]) == if Serialize(value).Some? then Some([Serialize(value).value]) else None
    ensures Serialize(value).Some? ==> FromJsonAll([Serialize(value).value]) == [FromJson(Serialize(value).value)]
  {
    assert [value][1..] == [] && SerializeAll([]) == Some([]);
    if Serialize(value).Some? {
      var json := Serialize(value).value;
      var none: seq<Json> := [];
      assert [json] + none == [json] && [json][1..] == none && FromJsonAll(none) == [];
    }
  }

  /** A list of decimals comes back as texts, and a tuple as a list. */
  lemma {:induction false} ListsChange(py: Python)
    requires py.Sound() && py.nesting >= 1
    ensures py.Resent(ListColumn, ListValue([DecimalValue("1.5")])) == Some(ListValue([TextValue("1.5")]))
    ensures py.Resent(ListColumn, TupleValue([IntValue(1)])) == Some(ListValue([IntValue(1)]))
  {
    ListChanges(py, DecimalValue("1.5"));
    TupleChanges(py, IntValue(1));
  }

  lemma {:induction false} ListChanges(py: Python, item: Value)
    requires py.Sound() && py.nesting >= 1 && Serialize(item).Some? && ShallowValue(item, 0)
    ensures py.Resent(ListColumn, ListValue([item])) == Some(ListValue([FromJson(Serialize(item).value)]))
  {
    OneItem(item);
    SerializeWritable(ListValue([item]), py.nesting);
    ShallowerStill(item, py.nesting - 1);
  }

  lemma {:induction false} TupleChanges(py: Python, item: Value)
    requires py.Sound() && py.nesting >= 1 && Serialize(item).Some? && ShallowValue(item, 0)
    ensures py.Resent(ListColumn, TupleValue([item])) == Some(ListValue([FromJson(Serialize(item).value)]))
  {
    OneItem(item);
    SerializeWritable(TupleValue([item]), py.nesting);
    ShallowerStill(item, py.nesting - 1);
  }

  lemma {:induction false} ShallowerStill(value: Value, n: nat)
    requires ShallowValue(value, 0)
    ensures ShallowValue(value, n)
  {
    if value.EnumValue? {
      ShallowerStill(value.member, n);
    }
  }

  /** An enumeration of one member. */
  function Single(member: Value): ColumnType { EnumColumn({member}) }

  /** A member of an enumeration is found by a list as by a number or text. */
  lemma {:induction false} EnumListFound(py: Python)
    requires py.Sound() && py.nesting >= 1
    ensures var list := ListValue([IntValue(1), IntValue(2)]);
      py.Resent(Single(list), EnumValue(list)) == Some(EnumValue(list))
  {
    var list := ListValue([IntValue(1), IntValue(2)]);
    assert Kept(list);
    EnumRestores(py, Single(list), EnumValue(list));
  }

  /** One whose value is a decimal is not found by its text, and one whose value is None comes back as NULL. */
  lemma {:induction false} EnumMembersLost(py: Python, text: string)
    ensures py.Resent(Single(DecimalValue(text)), EnumValue(DecimalValue(text))) == None
    ensures py.Resent(Single(NoneValue), EnumValue(NoneValue)) == Some(NoneValue)
  {
    assert forall m <- Single(DecimalValue(text)).members :: !Equal(m, FromJson(JText(text)));
    assert Serialize(EnumValue(DecimalValue(text))) == Some(JText(text));
  }
}
