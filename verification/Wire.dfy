/**
 Fields of the driver's manifest stream: little-endian integers and length-prefixed strings. Reading
 a row of fields succeeds exactly where the row's encoding stands.
 */
module Wire {
  import opened Base
  import Utf8

  type Name = seq<byte>

  datatype Failure =
    | Truncated | TrailingBytes | Malformed | InvalidRecord
    | ConflictingSource | DuplicateId | UnexpectedModule | DuplicateModule

  datatype Got<+T> = Got(value: T, next: nat)

  type Read<+T> = Result<Got<T>, Failure>

  // ---- Reading one field ----

  /** The little-endian value of `n` bytes. */
  function Value(bytes: seq<byte>, i: nat, n: nat): nat
    requires i + n <= |bytes|
    decreases n
  {
    if n == 0 then 0 else bytes[i] + 256 * Value(bytes, i + 1, n - 1)
  }

  function ReadU32(bytes: seq<byte>, i: nat): (r: Read<nat>)
    ensures r.Ok? ==> r.value.next == i + 4
  {
    if i + 4 > |bytes| then Err(Truncated) else Ok(Got(Value(bytes, i, 4), i + 4))
  }

  function ReadU64(bytes: seq<byte>, i: nat): (r: Read<nat>)
    ensures r.Ok? ==> r.value.next == i + 8
  {
    if i + 8 > |bytes| then Err(Truncated) else Ok(Got(Value(bytes, i, 8), i + 8))
  }

  function ReadBool(bytes: seq<byte>, i: nat): (r: Read<bool>)
    ensures r.Ok? ==> r.value.next == i + 4
  {
    var code :- ReadU32(bytes, i);
    if code.value > 1 then Err(Malformed) else Ok(Got(code.value == 1, code.next))
  }

  function ReadString(bytes: seq<byte>, i: nat): (r: Read<Name>)
    ensures r.Ok? ==> r.value.next == i + 4 + |r.value.value|
  {
    var length :- ReadU32(bytes, i);
    if length.next + length.value > |bytes| then Err(Truncated)
    else
      var text := bytes[length.next..length.next + length.value];
      if Utf8.IsUtf8(text) then Ok(Got(text, length.next + length.value)) else Err(Malformed)
  }

  // ---- Writing one field ----

  /** The `n` bytes of a little-endian value. */
  function LittleEndian(v: nat, n: nat): (bytes: seq<byte>)
    ensures |bytes| == n
  {
    if n == 0 then [] else [v % 256] + LittleEndian(v / 256, n - 1)
  }

  datatype Field = U32(n: nat) | U64(n: nat) | Str(text: Name) | Raw(bytes: seq<byte>)

  /** The values that the writer's types and checks let through. */
  predicate Representable(f: Field) {
    match f
    case U32(n) => n <= U32_MAX
    case U64(n) => n <= U64_MAX
    case Str(text) => |text| <= U32_MAX && Utf8.IsUtf8(text)
    case Raw(_) => true
  }

  function Encode(f: Field): seq<byte> {
    match f
    case U32(n) => LittleEndian(n, 4)
    case U64(n) => LittleEndian(n, 8)
    case Str(text) => LittleEndian(|text|, 4) + text
    case Raw(bytes) => bytes
  }

  function Flag(b: bool): Field {
    U32(if b then 1 else 0)
  }

  // ---- Reading what was written ----

  ghost predicate FieldRead(bytes: seq<byte>, i: nat, f: Field) {
    match f
    case U32(n) => ReadU32(bytes, i) == Ok(Got(n, i + 4))
    case U64(n) => ReadU64(bytes, i) == Ok(Got(n, i + 8))
    case Str(text) => ReadString(bytes, i) == Ok(Got(text, i + 4 + |text|))
    case Raw(raw) => Occurs(bytes, i, raw)
  }

  /** How many values `n` bytes can hold. */
  function Values(n: nat): nat {
    if n == 0 then 1 else 256 * Values(n - 1)
  }

  lemma {:induction false} ValueIsSmall(bytes: seq<byte>, i: nat, n: nat)
    requires i + n <= |bytes|
    ensures Value(bytes, i, n) < Values(n)
    decreases n
  {
    if n > 0 {
      ValueIsSmall(bytes, i + 1, n - 1);
    }
  }

  /** A value stands at a position exactly when its bytes do. */
  lemma {:induction false} ValueIffOccurs(bytes: seq<byte>, i: nat, n: nat, v: nat)
    requires i + n <= |bytes| && v < Values(n)
    ensures Value(bytes, i, n) == v <==> Occurs(bytes, i, LittleEndian(v, n))
    decreases n
  {
    if n > 0 {
      var low, rest := v % 256, LittleEndian(v / 256, n - 1);
      ValueIffOccurs(bytes, i + 1, n - 1, v / 256);
      assert Occurs(bytes, i, [low] + rest) <==> bytes[i] == low && Occurs(bytes, i + 1, rest) by {
        if Occurs(bytes, i, [low] + rest) {
          OccursParts(bytes, i, [low], rest);
          assert [low][0] == low && bytes[i + 0] == low;
        } else if bytes[i] == low && Occurs(bytes, i + 1, rest) {
          OccursJoin(bytes, i, [low], rest);
        }
      }
    }
  }

  lemma U32IffOccurs(bytes: seq<byte>, i: nat, n: nat)
    requires n <= U32_MAX
    ensures ReadU32(bytes, i) == Ok(Got(n, i + 4)) <==> Occurs(bytes, i, LittleEndian(n, 4))
  {
    if i + 4 <= |bytes| {
      ValueIffOccurs(bytes, i, 4, n);
    }
  }

  lemma U64IffOccurs(bytes: seq<byte>, i: nat, n: nat)
    requires n <= U64_MAX
    ensures ReadU64(bytes, i) == Ok(Got(n, i + 8)) <==> Occurs(bytes, i, LittleEndian(n, 8))
  {
    if i + 8 <= |bytes| {
      ValueIffOccurs(bytes, i, 8, n);
    }
  }

  lemma StringIffOccurs(bytes: seq<byte>, i: nat, text: Name)
    requires |text| <= U32_MAX && Utf8.IsUtf8(text)
    ensures ReadString(bytes, i) == Ok(Got(text, i + 4 + |text|)) <==> Occurs(bytes, i, LittleEndian(|text|, 4) + text)
  {
    hide Value, LittleEndian, Utf8.IsUtf8;
    var length := LittleEndian(|text|, 4);
    U32IffOccurs(bytes, i, |text|);
    if ReadString(bytes, i) == Ok(Got(text, i + 4 + |text|)) {
      assert text == bytes[i + 4..i + 4 + |text|];
      OccursJoin(bytes, i, length, text);
    }
    if Occurs(bytes, i, length + text) {
      OccursParts(bytes, i, length, text);
      assert bytes[i + 4..i + 4 + |text|] == text;
    }
  }

  lemma FieldIffOccurs(bytes: seq<byte>, i: nat, f: Field)
    requires Representable(f)
    ensures FieldRead(bytes, i, f) <==> Occurs(bytes, i, Encode(f))
  {
    hide ReadU32, ReadU64, ReadString, LittleEndian;
    match f
    case U32(n) => U32IffOccurs(bytes, i, n);
    case U64(n) => U64IffOccurs(bytes, i, n);
    case Str(text) => StringIffOccurs(bytes, i, text);
    case Raw(_) =>
  }

  lemma FlagIffBool(bytes: seq<byte>, i: nat, b: bool)
    ensures FieldRead(bytes, i, Flag(b)) <==> ReadBool(bytes, i) == Ok(Got(b, i + 4))
  {
    hide ReadU32;
  }

  lemma FieldIsRepresentable(bytes: seq<byte>, i: nat, f: Field)
    requires FieldRead(bytes, i, f)
    ensures Representable(f)
  {
    match f
    case U32(n) => ValueIsSmall(bytes, i, 4);
    case U64(n) => ValueIsSmall(bytes, i, 8);
    case Str(text) => ValueIsSmall(bytes, i, 4);
    case Raw(_) =>
  }

  // ---- Rows of fields ----

  datatype Row = End | Then(field: Field, rest: Row)

  function EncodeRow(row: Row): seq<byte> {
    match row
    case End => []
    case Then(f, rest) => Encode(f) + EncodeRow(rest)
  }

  predicate RepresentableRow(row: Row) {
    row.Then? ==> Representable(row.field) && RepresentableRow(row.rest)
  }

  /** Reading field by field from `i` yields the row and stops at `j`. */
  ghost predicate Reads(bytes: seq<byte>, i: nat, row: Row, j: nat)
    decreases row
  {
    match row
    case End => i == j
    case Then(f, rest) => FieldRead(bytes, i, f) && Reads(bytes, i + |Encode(f)|, rest, j)
  }

  /** A row is read exactly where its encoding stands; only representable rows are ever read. */
  lemma {:induction false} RowIffOccurs(bytes: seq<byte>, i: nat, row: Row, j: nat)
    requires i <= |bytes|
    ensures Reads(bytes, i, row, j) <==>
              RepresentableRow(row) && Occurs(bytes, i, EncodeRow(row)) && j == i + |EncodeRow(row)|
    decreases row
  {
    hide FieldRead, Encode, Representable;
    if row.Then? {
      var head, tail := Encode(row.field), EncodeRow(row.rest);
      if Reads(bytes, i, row, j) {
        FieldIsRepresentable(bytes, i, row.field);
        FieldIffOccurs(bytes, i, row.field);
        RowIffOccurs(bytes, i + |head|, row.rest, j);
        OccursJoin(bytes, i, head, tail);
      }
      if RepresentableRow(row) && Occurs(bytes, i, EncodeRow(row)) && j == i + |EncodeRow(row)| {
        OccursParts(bytes, i, head, tail);
        FieldIffOccurs(bytes, i, row.field);
        RowIffOccurs(bytes, i + |head|, row.rest, j);
      }
    }
  }

  /** Reading depends only on the bytes that it consumes. */
  lemma ReadsInExtension(a: seq<byte>, b: seq<byte>, row: Row)
    requires a <= b && Reads(a, 0, row, |a|)
    ensures Reads(b, 0, row, |a|)
  {
    RowIffOccurs(a, 0, row, |a|);
    RowIffOccurs(b, 0, row, |a|);
    forall k | 0 <= k < |EncodeRow(row)| ensures b[0 + k] == EncodeRow(row)[k] {
      assert a[0 + k] == EncodeRow(row)[k];
    }
  }

  // ---- One step of a row ----

  /** The read succeeds with this value, and the rest of the row follows. */
  ghost predicate Yields<T(!new)>(bytes: seq<byte>, r: Read<T>, value: T, rest: Row, j: nat) {
    r.Ok? && r.value.value == value && Reads(bytes, r.value.next, rest, j)
  }

  lemma U32Step(bytes: seq<byte>, i: nat, n: nat, rest: Row, j: nat)
    ensures Reads(bytes, i, Then(U32(n), rest), j) <==> Yields(bytes, ReadU32(bytes, i), n, rest, j)
  {
    hide ReadU32;
  }

  lemma U64Step(bytes: seq<byte>, i: nat, n: nat, rest: Row, j: nat)
    ensures Reads(bytes, i, Then(U64(n), rest), j) <==> Yields(bytes, ReadU64(bytes, i), n, rest, j)
  {
    hide ReadU64;
  }

  lemma FlagStep(bytes: seq<byte>, i: nat, b: bool, rest: Row, j: nat)
    ensures Reads(bytes, i, Then(Flag(b), rest), j) <==> Yields(bytes, ReadBool(bytes, i), b, rest, j)
  {
    hide ReadU32;
    FlagIffBool(bytes, i, b);
  }

  lemma StringStep(bytes: seq<byte>, i: nat, text: Name, rest: Row, j: nat)
    ensures Reads(bytes, i, Then(Str(text), rest), j) <==> Yields(bytes, ReadString(bytes, i), text, rest, j)
  {
    hide ReadString;
  }

  // ---- Rows that the bytes tell apart ----

  /** Fields of one kind, which the same bytes cannot give two values. */
  ghost predicate SameKind(f: Field, g: Field) {
    match (f, g)
    case (U32(_), U32(_)) => true
    case (U64(_), U64(_)) => true
    case (Str(_), Str(_)) => true
    case (Raw(a), Raw(b)) => a == b
    case _ => false
  }

  /** As long as two rows have had the same fields, their next fields are of one kind. */
  ghost predicate Alike(row: Row, other: Row) {
    match (row, other)
    case (End, End) => true
    case (Then(f, rest), Then(g, more)) => SameKind(f, g) && (f == g ==> Alike(rest, more))
    case _ => false
  }

  lemma FieldsAgree(bytes: seq<byte>, i: nat, f: Field, g: Field)
    requires SameKind(f, g) && FieldRead(bytes, i, f) && FieldRead(bytes, i, g)
    ensures f == g
  {
    hide ReadU32, ReadU64, ReadString;
  }

  /** The same bytes never read as two such rows. */
  lemma {:induction false} RowsAgree(bytes: seq<byte>, i: nat, row: Row, j: nat, other: Row, k: nat)
    requires Alike(row, other) && Reads(bytes, i, row, j) && Reads(bytes, i, other, k)
    ensures row == other
    decreases row
  {
    hide FieldRead;
    if row.Then? {
      FieldsAgree(bytes, i, row.field, other.field);
      RowsAgree(bytes, i + |Encode(row.field)|, row.rest, j, other.rest, k);
    }
  }
}
