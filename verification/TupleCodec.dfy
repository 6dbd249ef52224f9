/**
  tuple_codec.cpp: a row is stored as one tagged field per column: 0 for NULL, 1 and eight
  little-endian bytes for an integer, 2 and one byte for a boolean, 3, a four-byte length and
  the characters for a text.
 */
module TupleCodec {
  import opened Common
  import opened ByteIo

  const TAG_NULL: byte := 0
  const TAG_INTEGER: byte := 1
  const TAG_BOOLEAN: byte := 2
  const TAG_TEXT: byte := 3

  // The static_casts between int64 and uint64: two's complement.
  function ToUnsigned(i: int64): uint64 {
    if i < 0 then i + 0x1_0000_0000_0000_0000 else i
  }

  function ToSigned(u: uint64): int64 {
    if u > INT64_MAX then u - 0x1_0000_0000_0000_0000 else u
  }

  function TextBytes(s: Text): (b: Bytes)
    ensures |b| == |s|
    ensures forall i :: 0 <= i < |s| ==> b[i] == s[i] as int
  {
    seq(|s|, i requires 0 <= i < |s| => s[i] as int)
  }

  function BytesText(b: Bytes): (s: Text)
    ensures |s| == |b|
    ensures forall i :: 0 <= i < |b| ==> s[i] as int == b[i]
  {
    seq(|b|, i requires 0 <= i < |b| => b[i] as char)
  }

  function EncodeField(c: ColumnSchema, v: Value): Result<Bytes> {
    if c.ty == NullType then Err(InvalidArgument)
    else if v.Null? then
      if c.nullable then Ok([TAG_NULL]) else Err(TypeMismatch)
    else if ValueTypeOf(v) != c.ty then Err(TypeMismatch)
    else if v.Int? then Ok([TAG_INTEGER] + LittleEndian(8, ToUnsigned(v.i)))
    else if v.Bool? then Ok([TAG_BOOLEAN, if v.b then 1 else 0])
    else if |v.s| > UINT32_MAX then Err(InvalidArgument)
    else Ok([TAG_TEXT] + LittleEndian(4, |v.s|) + TextBytes(v.s))
  }

  // The value of the first field of `bytes` and the number of bytes it takes.
  function DecodeField(c: ColumnSchema, bytes: Bytes): (r: Result<(Value, nat)>)
    ensures r.Ok? ==> 0 < r.value.1 <= |bytes|
  {
    if c.ty == NullType || bytes == [] then Err(Corruption)
    else if bytes[0] == TAG_NULL then
      if c.nullable then Ok((Null, 1)) else Err(Corruption)
    else if c.ty == Integer then
      if bytes[0] != TAG_INTEGER || |bytes| < 9 then Err(Corruption)
      else
        FitsUint64(bytes[1..9]);
        Ok((Int(ToSigned(FromLittleEndian(bytes[1..9]))), 9))
    else if c.ty == SqlType.Text then
      if bytes[0] != TAG_TEXT || |bytes| < 5 then Err(Corruption)
      else
        var length := FromLittleEndian(bytes[1..5]);
        if |bytes| - 5 < length then Err(Corruption)
        else Ok((Str(BytesText(bytes[5..5 + length])), 5 + length))
    else
      if bytes[0] != TAG_BOOLEAN || |bytes| < 2 || bytes[1] > 1 then Err(Corruption)
      else Ok((Bool(bytes[1] == 1), 2))
  }

  lemma PowersOf256()
    ensures Pow256(4) == 0x1_0000_0000
    ensures Pow256(8) == 0x1_0000_0000_0000_0000
  {
    assert Pow256(2) == 0x1_0000;
    assert Pow256(4) == 256 * (256 * Pow256(2));
    assert Pow256(6) == 256 * (256 * Pow256(4));
    assert Pow256(8) == 256 * (256 * Pow256(6));
  }

  lemma FitsUint64(s: Bytes)
    requires |s| == 8
    ensures 0 <= FromLittleEndian(s) <= UINT64_MAX
  {
    FromLittleEndianInverse(s);
    PowersOf256();
  }

  function EncodeFields(schema: TableSchema, row: Row): (r: Result<Bytes>)
    requires |schema| == |row|
    decreases |schema|
  {
    if schema == [] then Ok([])
    else
      var field :- EncodeField(schema[0], row[0]);
      var rest :- EncodeFields(schema[1..], row[1..]);
      Ok(field + rest)
  }

  function DecodeFields(schema: TableSchema, bytes: Bytes): (r: Result<Row>)
    decreases |schema|
  {
    if schema == [] then
      if bytes == [] then Ok([]) else Err(Corruption)
    else
      var (v, n) :- DecodeField(schema[0], bytes);
      var rest :- DecodeFields(schema[1..], bytes[n..]);
      Ok([v] + rest)
  }

  function EncodeRow(schema: TableSchema, row: Row): Result<Bytes> {
    if |row| != |schema| then Err(InvalidArgument) else EncodeFields(schema, row)
  }

  function DecodeRecord(schema: TableSchema, record: Bytes): Result<Row> {
    DecodeFields(schema, record)
  }

  // ---------------------------------------------------------------- the codec is a bijection

  lemma FieldRoundTrip(c: ColumnSchema, v: Value, rest: Bytes)
    requires EncodeField(c, v).Ok?
    ensures var field := EncodeField(c, v).value;
            DecodeField(c, field + rest) == Ok((v, |field|))
  {
    PowersOf256();
    var field := EncodeField(c, v).value;
    var bytes := field + rest;
    match v {
      case Int(i) =>
        assert bytes[1..9] == LittleEndian(8, ToUnsigned(i));
        LittleEndianRoundTrip(8, ToUnsigned(i));
      case Str(s) =>
        assert bytes[1..5] == LittleEndian(4, |s|);
        LittleEndianRoundTrip(4, |s|);
        assert bytes[5..5 + |s|] == TextBytes(s);
        assert BytesText(TextBytes(s)) == s;
      case _ =>
    }
  }

  lemma FieldInverse(c: ColumnSchema, bytes: Bytes)
    requires DecodeField(c, bytes).Ok?
    ensures var (v, n) := DecodeField(c, bytes).value;
            EncodeField(c, v) == Ok(bytes[..n])
  {
    PowersOf256();
    var (v, n) := DecodeField(c, bytes).value;
    if bytes[0] == TAG_NULL {
      assert bytes[..1] == [TAG_NULL];
    } else {
      match c.ty {
        case Integer =>
          FromLittleEndianInverse(bytes[1..9]);
          assert bytes[..9] == [bytes[0]] + bytes[1..9];
        case Text =>
          FromLittleEndianInverse(bytes[1..5]);
          assert TextBytes(v.s) == bytes[5..n];
          assert bytes[..n] == [bytes[0]] + bytes[1..5] + bytes[5..n];
        case Boolean =>
          assert bytes[..2] == [bytes[0], bytes[1]];
        case NullType =>
      }
    }
  }

  // Decoding an encoded row gives the row back.
  lemma {:induction false} DecodeInvertsEncode(schema: TableSchema, row: Row)
    requires EncodeRow(schema, row).Ok?
    ensures DecodeRecord(schema, EncodeRow(schema, row).value) == Ok(row)
    decreases |schema|
  {
    hide EncodeField, DecodeField;
    if schema != [] {
      var field := EncodeField(schema[0], row[0]).value;
      var rest := EncodeFields(schema[1..], row[1..]).value;
      FieldRoundTrip(schema[0], row[0], rest);
      DecodeInvertsEncode(schema[1..], row[1..]);
      assert (field + rest)[|field|..] == rest;
      assert row == [row[0]] + row[1..];
    }
  }

  // Encoding a decoded record gives the same bytes back: no row has two encodings.
  lemma {:induction false} EncodeInvertsDecode(schema: TableSchema, record: Bytes)
    requires DecodeRecord(schema, record).Ok?
    ensures EncodeRow(schema, DecodeRecord(schema, record).value) == Ok(record)
    decreases |schema|
  {
    hide EncodeField, DecodeField;
    if schema != [] {
      var (v, n) := DecodeField(schema[0], record).value;
      FieldInverse(schema[0], record);
      EncodeInvertsDecode(schema[1..], record[n..]);
      var row := DecodeRecord(schema, record).value;
      assert row[1..] == DecodeRecord(schema[1..], record[n..]).value;
      assert record == record[..n] + record[n..];
    }
  }

  function FieldSize(v: Value): nat {
    match v
    case Null => 1
    case Int(_) => 9
    case Bool(_) => 2
    case Str(s) => 5 + |s|
  }

  function RowSize(row: Row): nat {
    if row == [] then 0 else FieldSize(row[0]) + RowSize(row[1..])
  }

  ghost predicate Storable(schema: TableSchema, row: Row) {
    && Conforms(schema, row)
    && (forall i :: 0 <= i < |schema| ==> schema[i].ty != NullType)
    && (forall i :: 0 <= i < |row| && row[i].Str? ==> |row[i].s| <= UINT32_MAX)
  }

  // The bytes of a field: its tag, then for an integer its two's complement and for a text its
  // length, both little-endian, and the characters.
  lemma FieldFormat(c: ColumnSchema, v: Value, k: nat)
    requires EncodeField(c, v).Ok?
    ensures var b := EncodeField(c, v).value;
            && (v.Null? ==> b == [0])
            && (v.Bool? ==> b == [2, if v.b then 1 else 0])
            && (v.Int? ==> |b| == 9 && b[0] == 1 && (k < 8 ==> b[1 + k] == Dropped(TwosComplement(v.i), k) % 256))
            && (v.Str? ==> && |b| == 5 + |v.s| && b[0] == 3
                           && (k < 4 ==> b[1 + k] == Dropped(|v.s|, k) % 256)
                           && (k < |v.s| ==> b[5 + k] == v.s[k] as int))
  {
    hide LittleEndian, Dropped, ToUnsigned, TwosComplement;
    if v.Int? {
      IntegerFormat(v.i, k);
    }
    if v.Str? && k < 4 {
      LittleEndianDigits(4, |v.s|, k);
    }
  }

  lemma IntegerFormat(i: int64, k: nat)
    ensures k < 8 ==> LittleEndian(8, ToUnsigned(i))[k] == Dropped(TwosComplement(i), k) % 256
  {
    hide LittleEndian, Dropped;
    assert ToUnsigned(i) == TwosComplement(i);
    if k < 8 {
      LittleEndianDigits(8, ToUnsigned(i), k);
    }
  }

  // The remainder modulo 2^64.
  function TwosComplement(i: int64): nat {
    i % 0x1_0000_0000_0000_0000
  }

  // A record is the fields in column order, with nothing between them.
  lemma RecordIsFields(schema: TableSchema, row: Row)
    requires EncodeRow(schema, row).Ok? && schema != []
    ensures EncodeField(schema[0], row[0]).Ok? && EncodeRow(schema[1..], row[1..]).Ok?
    ensures EncodeRow(schema, row).value == EncodeField(schema[0], row[0]).value + EncodeRow(schema[1..], row[1..]).value
    ensures EncodeRow([], []) == Ok([])
  {
  }

  // A row that conforms to a schema of typed columns is refused only for the length of a text.
  lemma {:induction false} ConformingRowEncodes(schema: TableSchema, row: Row)
    requires Conforms(schema, row) && forall i :: 0 <= i < |schema| ==> schema[i].ty != NullType
    ensures EncodeRow(schema, row).Err? ==> EncodeRow(schema, row).error == InvalidArgument && RowSize(row) > UINT32_MAX
    decreases |schema|
  {
    hide LittleEndian, TextBytes;
    if schema != [] {
      ConformingRowEncodes(schema[1..], row[1..]);
    }
  }

  // Encoding succeeds exactly on the rows the schema allows, and the record's length depends
  // on the values alone.
  lemma {:induction false} EncodeSucceedsExactly(schema: TableSchema, row: Row)
    ensures EncodeRow(schema, row).Ok? <==> Storable(schema, row)
    ensures EncodeRow(schema, row).Ok? ==> |EncodeRow(schema, row).value| == RowSize(row)
    decreases |schema|
  {
    if |row| == |schema| && schema != [] {
      EncodeSucceedsExactly(schema[1..], row[1..]);
      assert Storable(schema, row) <==> EncodeField(schema[0], row[0]).Ok? && Storable(schema[1..], row[1..]) by {
        StorableHeadTail(schema, row);
      }
    }
  }

  lemma StorableHeadTail(schema: TableSchema, row: Row)
    requires |row| == |schema| && schema != []
    ensures Storable(schema, row) <==> EncodeField(schema[0], row[0]).Ok? && Storable(schema[1..], row[1..])
  {
    if Storable(schema[1..], row[1..]) {
      forall i | 1 <= i < |schema|
        ensures schema[i] == schema[1..][i - 1] && row[i] == row[1..][i - 1]
      {
      }
    }
  }

  // Whatever the bytes, decoding yields a row of the schema or Corruption.
  lemma DecodedRowsConform(schema: TableSchema, record: Bytes)
    ensures var r := DecodeRecord(schema, record);
            if r.Ok? then Storable(schema, r.value) && RowSize(r.value) == |record| else r.error == Corruption
  {
    if DecodeRecord(schema, record).Ok? {
      EncodeInvertsDecode(schema, record);
      EncodeSucceedsExactly(schema, DecodeRecord(schema, record).value);
    } else {
      DecodeErrorsAreCorruption(schema, record);
    }
  }

  lemma {:induction false} DecodeErrorsAreCorruption(schema: TableSchema, bytes: Bytes)
    requires DecodeFields(schema, bytes).Err?
    ensures DecodeFields(schema, bytes) == Err(Corruption)
    decreases |schema|
  {
    if schema != [] && DecodeField(schema[0], bytes).Ok? {
      DecodeErrorsAreCorruption(schema[1..], bytes[DecodeField(schema[0], bytes).value.1..]);
    }
  }

  // ---------------------------------------------------------------- the code

  method AppendText(bytes: Bytes, text: Text) returns (out: Bytes)
    ensures out == bytes + TextBytes(text)
  {
    out := bytes;
    for k := 0 to |text|
      invariant out == bytes + TextBytes(text)[..k]
    {
      out := out + [text[k] as int];
    }
  }

  method AppendField(bytes: Bytes, c: ColumnSchema, v: Value) returns (r: Result<Bytes>)
    ensures r == if EncodeField(c, v).Ok? then Ok(bytes + EncodeField(c, v).value) else EncodeField(c, v)
  {
    if c.ty == NullType { return Err(InvalidArgument); }
    if v.Null? {
      if !c.nullable { return Err(TypeMismatch); }
      return Ok(bytes + [TAG_NULL]);
    }
    if ValueTypeOf(v) != c.ty { return Err(TypeMismatch); }
    var out: Bytes;
    if v.Int? {
      out := AppendLittleEndian(bytes + [TAG_INTEGER], 8, ToUnsigned(v.i));
      assert out == bytes + ([TAG_INTEGER] + LittleEndian(8, ToUnsigned(v.i)));
    } else if v.Bool? {
      out := bytes + [TAG_BOOLEAN];
      out := out + [if v.b then 1 else 0];
      assert out == bytes + [TAG_BOOLEAN, if v.b then 1 else 0];
    } else {
      if |v.s| > UINT32_MAX { return Err(InvalidArgument); }
      out := AppendLittleEndian(bytes + [TAG_TEXT], 4, |v.s|);
      out := AppendText(out, v.s);
      assert out == bytes + ([TAG_TEXT] + LittleEndian(4, |v.s|) + TextBytes(v.s));
    }
    return Ok(out);
  }

  method Encode(schema: TableSchema, values: Row) returns (r: Result<Bytes>)
    ensures r == EncodeRow(schema, values)
  {
    hide EncodeField, Appended;
    if |values| != |schema| {
      return Err(InvalidArgument);
    }
    var tuple: Bytes := [];
    assert schema[0..] == schema && values[0..] == values;
    for index := 0 to |schema|
      invariant EncodeFields(schema, values) == Appended(tuple, EncodeFields(schema[index..], values[index..]))
    {
      assert schema[index..][0] == schema[index] && schema[index..][1..] == schema[index + 1..];
      assert values[index..][0] == values[index] && values[index..][1..] == values[index + 1..];
      ghost var field := EncodeField(schema[index], values[index]);
      var appended := AppendField(tuple, schema[index], values[index]);
      if appended.Err? {
        return appended;
      }
      AppendedStep(tuple, field.value, EncodeFields(schema[index + 1..], values[index + 1..]));
      tuple := appended.value;
    }
    return Ok(tuple);
  }

  method ReadText(record: Bytes, offset: nat, length: nat) returns (text: Text)
    requires offset + length <= |record|
    ensures text == BytesText(record[offset..offset + length])
  {
    text := [];
    for k := 0 to length
      invariant text == BytesText(record[offset..offset + length])[..k]
    {
      text := text + [record[offset + k] as char];
    }
  }

  // One column of the decoding loop; next is the advanced offset.
  method ReadField(record: Bytes, offset: nat, c: ColumnSchema) returns (r: Result<(Value, nat)>)
    requires offset <= |record|
    ensures r == DecodeField(c, record[offset..])
  {
    ghost var bytes := record[offset..];
    if c.ty == NullType { return Err(Corruption); }
    if offset >= |record| { return Err(Corruption); }
    var tag := record[offset];
    var at := offset + 1;
    if tag == TAG_NULL {
      if !c.nullable { return Err(Corruption); }
      return Ok((Null, 1));
    }
    if c.ty == Integer {
      if tag != TAG_INTEGER { return Err(Corruption); }
      var ok, _, encoded := ReadLittleEndian(record, at, 8);
      if !ok { return Err(Corruption); }
      assert record[at..at + 8] == bytes[1..9];
      FitsUint64(bytes[1..9]);
      return Ok((Int(ToSigned(encoded)), 9));
    } else if c.ty == SqlType.Text {
      if tag != TAG_TEXT { return Err(Corruption); }
      var ok, next, length := ReadLittleEndian(record, at, 4);
      if !ok { return Err(Corruption); }
      assert record[at..at + 4] == bytes[1..5];
      if |record| - next < length { return Err(Corruption); }
      var text := ReadText(record, next, length);
      assert record[next..next + length] == bytes[5..5 + length];
      return Ok((Str(text), 5 + length));
    } else {
      if tag != TAG_BOOLEAN { return Err(Corruption); }
      if at >= |record| || record[at] > 1 { return Err(Corruption); }
      return Ok((Bool(record[at] == 1), 2));
    }
  }

  method Decode(schema: TableSchema, record: Bytes) returns (r: Result<Row>)
    ensures r == DecodeRecord(schema, record)
  {
    hide DecodeField, Appended;
    var values: Row := [];
    var offset := 0;
    assert schema[0..] == schema && record[0..] == record;
    for index := 0 to |schema|
      invariant offset <= |record|
      invariant DecodeFields(schema, record) == Appended(values, DecodeFields(schema[index..], record[offset..]))
    {
      assert schema[index..][0] == schema[index] && schema[index..][1..] == schema[index + 1..];
      var field := ReadField(record, offset, schema[index]);
      if field.Err? {
        return Err(field.error);
      }
      var (v, n) := field.value;
      assert record[offset..][n..] == record[offset + n..];
      AppendedStep(values, [v], DecodeFields(schema[index + 1..], record[offset + n..]));
      values := values + [v];
      offset := offset + n;
    }
    if offset != |record| {
      return Err(Corruption);
    }
    return Ok(values);
  }
}
