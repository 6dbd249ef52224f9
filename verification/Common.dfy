/**
  Vocabulary shared by every part of the model: fixed-width numbers, byte strings,
  SQL values and the result type that stands for the engine's status codes.
 */
module Common {

  // Machine integers are subset types of int: assigning to one of them is a proof that
  // the mathematical value fits, so no wrap-around is hidden by the model.
  type byte = x: int | 0 <= x < 0x100
  type uint16 = x: int | 0 <= x < 0x1_0000
  type uint32 = x: int | 0 <= x < 0x1_0000_0000
  type uint64 = x: int | 0 <= x < 0x1_0000_0000_0000_0000
  type int64 = x: int | -0x8000_0000_0000_0000 <= x < 0x8000_0000_0000_0000

  const UINT16_MAX: int := 0xFFFF
  const UINT32_MAX: int := 0xFFFF_FFFF
  const UINT64_MAX: int := 0xFFFF_FFFF_FFFF_FFFF
  const INT64_MIN: int := -0x8000_0000_0000_0000
  const INT64_MAX: int := 0x7FFF_FFFF_FFFF_FFFF

  predicate InInt64(x: int) {
    INT64_MIN <= x <= INT64_MAX
  }

  // A std::string is a sequence of 8-bit characters.
  type ByteChar = c: char | c as int < 0x100 witness 'a'
  type Text = seq<ByteChar>

  type PageId = uint64
  type SlotId = uint16
  const INVALID_PAGE_ID: PageId := 0xFFFF_FFFF_FFFF_FFFF
  const DEFAULT_PAGE_SIZE: nat := 4096

  datatype ErrorCode =
    | InvalidArgument
    | NotFound
    | AlreadyExists
    | TypeMismatch
    | ParseError
    | BindError
    | PlanError
    | ExecutionError
    | IoError
    | Corruption
    | TransactionConflict
    | NotSupported
    | Internal

  // A status is a result without payload.
  datatype Result<+T> = Ok(value: T) | Err(error: ErrorCode) {
    predicate IsFailure() {
      Err?
    }

    function PropagateFailure<U>(): Result<U>
      requires Err?
    {
      Err(error)
    }

    function Extract(): T
      requires Ok?
    {
      value
    }
  }

  type Status = Result<()>
  const OkStatus: Status := Ok(())

  // What a loop that has collected `done` returns when the rest of its input gives r.
  function Appended<T>(done: seq<T>, r: Result<seq<T>>): (whole: Result<seq<T>>)
    ensures done == [] ==> whole == r
    ensures r.Ok? && r.value == [] ==> whole == Ok(done)
    ensures r.Err? ==> whole == r
  {
    if r.Err? then r
    else
      assert done == [] ==> done + r.value == r.value;
      assert r.value == [] ==> done + r.value == done;
      Ok(done + r.value)
  }

  lemma AppendedStep<T>(done: seq<T>, x: seq<T>, rest: Result<seq<T>>)
    ensures Appended(done + x, rest) == if rest.Err? then rest else Appended(done, Ok(x + rest.value))
  {
    if rest.Ok? {
      assert (done + x) + rest.value == done + (x + rest.value);
    }
  }

  datatype Option<+T> = None | Some(value: T)

  datatype SqlType = Integer | Text | Boolean | NullType

  datatype Value =
    | Null
    | Int(i: int64)
    | Bool(b: bool)
    | Str(s: Text)

  function ValueTypeOf(v: Value): SqlType {
    match v
    case Int(_) => Integer
    case Str(_) => SqlType.Text
    case Bool(_) => Boolean
    case Null => NullType
  }

  datatype ColumnSchema = ColumnSchema(name: Text, ty: SqlType, nullable: bool, id: nat)

  type TableSchema = seq<ColumnSchema>
  type Row = seq<Value>

  // A row a table may hold: one value per column, of the column's type or an allowed NULL.
  ghost predicate Conforms(schema: TableSchema, row: Row) {
    && |row| == |schema|
    && forall i :: 0 <= i < |row| ==>
         || (row[i].Null? && schema[i].nullable)
         || (!row[i].Null? && ValueTypeOf(row[i]) == schema[i].ty)
  }

  // What a created table's columns satisfy: named, typed, numbered by position, and distinct
  // up to case.
  ghost predicate WellFormedSchema(schema: TableSchema) {
    && |schema| <= UINT32_MAX + 1
    && (forall i :: 0 <= i < |schema| ==> schema[i].id == i && schema[i].name != [] && schema[i].ty != NullType)
    && (forall i, j :: 0 <= i < j < |schema| ==> FoldIdentifierKey(schema[i].name) != FoldIdentifierKey(schema[j].name))
  }

  // FoldIdentifierKey with the C locale's tolower.
  function FoldChar(c: ByteChar): ByteChar {
    if 'A' <= c <= 'Z' then (c as int + 32) as char else c
  }

  function FoldIdentifierKey(name: Text): (key: Text)
    ensures |key| == |name|
    ensures forall i :: 0 <= i < |name| ==> key[i] == FoldChar(name[i])
  {
    seq(|name|, i requires 0 <= i < |name| => FoldChar(name[i]))
  }

  const UPPER_CASE: Text := "ABCDEFGHIJKLMNOPQRSTUVWXYZ"
  const LOWER_CASE: Text := "abcdefghijklmnopqrstuvwxyz"

  // Folding takes the k-th capital letter to the k-th small one and leaves the rest alone.
  lemma FoldCharExactly(c: ByteChar)
    ensures forall k :: 0 <= k < 26 && c == UPPER_CASE[k] ==> FoldChar(c) == LOWER_CASE[k]
    ensures c !in UPPER_CASE ==> FoldChar(c) == c
  {
    if 'A' <= c <= 'Z' {
      assert UPPER_CASE[c as int - 'A' as int] == c;
    }
  }
}
