/**
 The header and top-level grammar of disassembled LLVM, as functions of the complete input.

 A definition is recognized from its tokens and delimiters only; types and instructions are not read.
 */
module Grammar {
  import opened Base
  import opened Lexis
  import opened Symbols
  import opened IndexRecords

  predicate StartsWith(x: seq<byte>, b: byte) {
    |x| > 0 && x[0] == b
  }

  /** A text: its first byte, and then anything. */
  lemma StartIs(x: seq<byte>, b: byte)
    ensures StartsWith(x, b) <==> exists rest :: x == [b] + rest
  {
    if StartsWith(x, b) {
      assert x == [b] + x[1..];
    }
  }

  // ---- Headers ----

  /** Consumes the group that a token opens; other tokens stand alone, and a closing one is an error. */
  function OpenedGroup(s: Source, c: Cursor, token: Token): (r: Step<()>)
    requires Fits(s, c)
    ensures KeepsAfter(s, c, token, r)
  {
    if |token.bytes| != 1 then Ok(((), c))
    else if IsOpening(token.bytes[0]) then Group(s, c, [MatchingClose(token.bytes[0]).value])
    else if IsClosing(token.bytes[0]) then Err(Malformed(token.offset))
    else Ok(((), c))
  }

  function ParenGroup(s: Source, c: Cursor): (r: Step<()>)
    requires Fits(s, c)
    ensures Keeps(s, c, r)
  {
    var (_, c1) :- Expect(s, c, Text("("));
    Group(s, c1, [')' as byte])
  }

  predicate IsSimpleConstant(x: seq<byte>) {
    || x == Text("null") || x == Text("undef") || x == Text("poison") || x == Text("zeroinitializer")
    || x == Text("true") || x == Text("false")
    || (|x| > 0 && IsDigit(x[0])) || StartsWith(x, '-' as byte)
  }

  predicate IsConstantOpcode(x: seq<byte>) {
    || x == Text("getelementptr") || x == Text("bitcast") || x == Text("addrspacecast")
    || x == Text("inttoptr") || x == Text("ptrtoint") || x == Text("trunc")
    || x == Text("blockaddress") || x == Text("ptrauth") || x == Text("splat")
  }

  predicate IsPointerFlag(x: seq<byte>) {
    x == Text("inbounds") || x == Text("nuw") || x == Text("nusw")
  }

  /** The first token that is not a flag. */
  function SkipFlags(s: Source, c: Cursor, token: Token): (r: Step<Token>)
    requires Fits(s, c)
    ensures KeepsAfter(s, c, token, r)
    ensures r.Ok? ==> r.value.0 == token || c.offset <= r.value.0.offset <= |s.bytes|
    decreases |s.bytes| - c.offset
  {
    if !IsPointerFlag(token.bytes) then Ok((token, c))
    else
      var (next, c1) :- RequiredToken(s, c);
      SkipFlags(s, c1, next)
  }

  /** The operand list of a constant expression, after flags where its opcode allows them. */
  function ConstantOperands(s: Source, c: Cursor, flags: bool): (r: Step<()>)
    requires Fits(s, c)
    ensures Keeps(s, c, r)
  {
    hide RequiredToken, WellFormed, SkipFlags, Group;
    var (first, c1) :- RequiredToken(s, c);
    var (next, c2) :- if flags then SkipFlags(s, c1, first) else Ok((first, c1));
    if next.bytes != Text("(") then Err(Malformed(next.offset)) else Group(s, c2, [')' as byte])
  }

  /** Consumes a constant whose first token has been read. */
  function Constant(s: Source, c: Cursor, token: Token): (r: Step<()>)
    requires Fits(s, c) && WellFormed(token.bytes)
    ensures KeepsAfter(s, c, token, r)
  {
    var x := token.bytes;
    if |x| == 1 && IsOpening(x[0]) then Group(s, c, [MatchingClose(x[0]).value])
    else if StartsWith(x, '@' as byte) then
      var _ :- Decode(token);
      Ok(((), c))
    else if x == Text("dso_local_equivalent") || x == Text("no_cfi") then
      var (target, c1) :- RequiredToken(s, c);
      var _ :- Decode(target);
      Ok(((), c1))
    else if x == Text("c") then
      var (text, c1) :- RequiredToken(s, c);
      if StartsWith(text.bytes, '"' as byte) then Ok(((), c1)) else Err(Malformed(text.offset))
    else if IsSimpleConstant(x) then Ok(((), c))
    else if IsConstantOpcode(x) then ConstantOperands(s, c, x == Text("getelementptr"))
    else Err(Malformed(token.offset))
  }

  function TypedConstant(s: Source, c: Cursor): (r: Step<()>)
    requires Fits(s, c)
    ensures Keeps(s, c, r)
  {
    var (ty, c1) :- RequiredToken(s, c);
    var (_, c2) :- OpenedGroup(s, c1, ty);
    TypedValue(s, c2, ty.bytes == Text("ptr"))
  }

  /** The value of a typed constant, after the address space of a pointer. */
  function TypedValue(s: Source, c: Cursor, isPointer: bool): (r: Step<()>)
    requires Fits(s, c)
    ensures Keeps(s, c, r)
  {
    hide RequiredToken, WellFormed, AfterAddressSpace, Constant;
    var (value, c1) :- RequiredToken(s, c);
    var (operand, c2) :- if isPointer then AfterAddressSpace(s, c1, value) else Ok((value, c1));
    Constant(s, c2, operand)
  }

  /** The token after a pointer's address space, or the given token if that is not one. */
  function AfterAddressSpace(s: Source, c: Cursor, token: Token): (r: Step<Token>)
    requires Fits(s, c) && WellFormed(token.bytes)
    ensures KeepsAfter(s, c, token, r) && (r.Ok? ==> WellFormed(r.value.0.bytes))
    ensures r.Ok? ==> r.value.0 == token || c.offset <= r.value.0.offset <= |s.bytes|
  {
    if token.bytes != Text("addrspace") then Ok((token, c))
    else
      var (_, c1) :- ParenGroup(s, c);
      RequiredToken(s, c1)
  }

  predicate EndsHeader(x: seq<byte>) {
    x == Text("define") || x == Text("declare") || x == Text("}")
  }

  /** The function's name, after any result type and attributes. */
  function FunctionName(s: Source, c: Cursor): (r: Step<seq<byte>>)
    requires Fits(s, c)
    ensures Keeps(s, c, r)
    decreases |s.bytes| - c.offset
  {
    var (token, c1) :- RequiredToken(s, c);
    if StartsWith(token.bytes, '@' as byte) then
      var symbol :- Decode(token);
      Ok((symbol, c1))
    else if EndsHeader(token.bytes) then Err(Malformed(token.offset))
    else
      var (_, c2) :- OpenedGroup(s, c1, token);
      FunctionName(s, c2)
  }

  /** One part of what can follow the arguments. */
  function SuffixPart(s: Source, c: Cursor, token: Token): (r: Step<()>)
    requires Fits(s, c)
    ensures KeepsAfter(s, c, token, r)
  {
    var x := token.bytes;
    if x == Text("prefix") || x == Text("prologue") || x == Text("personality") then TypedConstant(s, c)
    else if x == Text("!") then
      var (metadata, c1) :- RequiredToken(s, c);
      OpenedGroup(s, c1, metadata)
    else if EndsHeader(x) then Err(Malformed(token.offset))
    else OpenedGroup(s, c, token)
  }

  /** What follows the arguments, through the brace that opens the body. */
  function FunctionSuffix(s: Source, c: Cursor): (r: Step<()>)
    requires Fits(s, c)
    ensures Keeps(s, c, r)
    decreases |s.bytes| - c.offset
  {
    var (token, c1) :- RequiredToken(s, c);
    if token.bytes == Text("{") then Ok(((), c1))
    else
      var (_, c2) :- SuffixPart(s, c1, token);
      FunctionSuffix(s, c2)
  }

  /** A function header after its keyword, through the brace that opens the body. */
  function FunctionHeader(s: Source, c: Cursor): (r: Step<seq<byte>>)
    requires Fits(s, c)
    ensures Keeps(s, c, r)
  {
    var (symbol, c1) :- FunctionName(s, c);
    var (_, c2) :- ParenGroup(s, c1);
    var (_, c3) :- FunctionSuffix(s, c2);
    Ok((symbol, c3))
  }

  /** An alias type, through the comma after it. */
  function AliasType(s: Source, c: Cursor): (r: Step<()>)
    requires Fits(s, c)
    ensures Keeps(s, c, r)
    decreases |s.bytes| - c.offset
  {
    var (token, c1) :- RequiredToken(s, c);
    var x := token.bytes;
    if x == Text(",") then Ok(((), c1))
    else if x == Text("=") || x == Text("define") || x == Text("declare") || StartsWith(x, '@' as byte) then
      Err(Malformed(token.offset))
    else
      var (_, c2) :- OpenedGroup(s, c1, token);
      AliasType(s, c2)
  }

  /** An alias operand: the target of a direct alias, or nothing for another constant. */
  function AliasOperand(s: Source, c: Cursor): (r: Step<Option<seq<byte>>>)
    requires Fits(s, c)
    ensures Keeps(s, c, r)
  {
    hide RequiredToken, WellFormed, AfterAddressSpace, Constant, TypedOperand;
    var (first, c1) :- RequiredToken(s, c);
    if first.bytes == Text("ptr") then
      var (second, c2) :- RequiredToken(s, c1);
      var (operand, c3) :- AfterAddressSpace(s, c2, second);
      TypedOperand(s, c3, operand)
    else if StartsWith(first.bytes, '@' as byte) then Err(Malformed(first.offset))
    else
      var (_, c2) :- Constant(s, c1, first);
      Ok((None, c2))
  }

  function TypedOperand(s: Source, c: Cursor, operand: Token): (r: Step<Option<seq<byte>>>)
    requires Fits(s, c) && WellFormed(operand.bytes)
    ensures KeepsAfter(s, c, operand, r)
  {
    if StartsWith(operand.bytes, '@' as byte) then
      var target :- Decode(operand);
      Ok((Some(target), c))
    else
      var (_, c1) :- Constant(s, c, operand);
      Ok((None, c1))
  }

  /** The index just after a newline, or the end of the input. */
  predicate AtLineEnd(s: Source, offset: nat) {
    || (0 < offset <= |s.bytes| && s.bytes[offset - 1] == '\n' as byte)
    || (offset == |s.bytes| && s.ending.Eof?)
  }

  /** One suffix after its comma: metadata, or a partition's name. */
  function AliasSuffixPart(s: Source, c: Cursor): (r: Step<()>)
    requires Fits(s, c)
    ensures Keeps(s, c, r)
  {
    var (suffix, c1) :- RequiredToken(s, c);
    if StartsWith(suffix.bytes, '!' as byte) then
      var (metadata, c2) :- RequiredToken(s, c1);
      OpenedGroup(s, c2, metadata)
    else if suffix.bytes != Text("partition") then Err(Malformed(suffix.offset))
    else
      var (name, c2) :- RequiredToken(s, c1);
      if StartsWith(name.bytes, '"' as byte) then Ok(((), c2)) else Err(Malformed(name.offset))
  }

  /** Partition and metadata suffixes, through the end of the header's line. */
  function AliasSuffix(s: Source, c: Cursor): (r: Step<()>)
    requires Fits(s, c)
    ensures Keeps(s, c, r)
    decreases |s.bytes| - c.offset
  {
    var (token, c1) :- ReadToken(s, c, true);
    if token.None? then Ok(((), c1))
    else if token.value.bytes != Text(",") then Err(Malformed(token.value.offset))
    else
      var (_, c2) :- AliasSuffixPart(s, c1);
      AliasSuffix(s, c2)
  }

  function AliasTarget(s: Source, c: Cursor): (r: Step<Option<seq<byte>>>)
    requires Fits(s, c)
    ensures Keeps(s, c, r)
  {
    hide RequiredToken, WellFormed, OpenedGroup, AliasType, AliasOperand, AliasSuffix;
    var (first, c1) :- RequiredToken(s, c);
    if first.bytes == Text(",") then Err(Malformed(first.offset))
    else
      var (_, c2) :- OpenedGroup(s, c1, first);
      var (_, c3) :- AliasType(s, c2);
      var (target, c4) :- AliasOperand(s, c3);
      var (_, c5) :- AliasSuffix(s, c4);
      Ok((target, c5))
  }

  // ---- Top level ----

  const MODIFIERS: set<seq<byte>> := {
    Text("private"), Text("internal"), Text("available_externally"), Text("linkonce"), Text("weak"),
    Text("common"), Text("appending"), Text("extern_weak"), Text("linkonce_odr"), Text("weak_odr"),
    Text("external"), Text("dso_local"), Text("dso_preemptable"), Text("default"), Text("hidden"),
    Text("protected"), Text("dllimport"), Text("dllexport"), Text("unnamed_addr"),
    Text("local_unnamed_addr"), Text("externally_initialized"), Text("thread_local")
  }

  /** The words that headers are made of. */
  lemma WordsAre(x: seq<byte>)
    ensures IsPointerFlag(x) <==> x in {Text("inbounds"), Text("nusw"), Text("nuw")}
    ensures EndsHeader(x) <==> x in {Text("declare"), Text("define"), Text("}")}
    ensures IsConstantOpcode(x) <==>
              x in {Text("addrspacecast"), Text("bitcast"), Text("blockaddress"), Text("getelementptr"),
                    Text("inttoptr"), Text("ptrauth"), Text("ptrtoint"), Text("splat"), Text("trunc")}
    ensures IsSimpleConstant(x) <==>
              || x in {Text("false"), Text("null"), Text("poison"), Text("true"), Text("undef")}
              || x == Text("zeroinitializer")
              || (x != [] && (48 <= x[0] <= 57 || x[0] == 45))
    ensures x in MODIFIERS <==>
              || x in {Text("appending"), Text("available_externally"), Text("common"), Text("default")}
              || x in {Text("dllexport"), Text("dllimport"), Text("dso_local"), Text("dso_preemptable")}
              || x in {Text("extern_weak"), Text("external"), Text("externally_initialized"), Text("hidden")}
              || x in {Text("internal"), Text("linkonce"), Text("linkonce_odr"), Text("local_unnamed_addr")}
              || x in {Text("private"), Text("protected"), Text("thread_local"), Text("unnamed_addr")}
              || x in {Text("weak"), Text("weak_odr")}
  {
  }

  /** The kind of an alias or ifunc, or nothing after the whole line of a variable. */
  function GlobalKind(s: Source, c: Cursor): (r: Step<Option<Kind>>)
    requires Fits(s, c)
    ensures match r
            case Ok((kind, next)) =>
              && Fits(s, next) && c.offset < next.offset
              && next.header == if kind.None? then None else c.header
            case Err(e) => Locates(s, c, c.offset, e)
    decreases |s.bytes| - c.offset
  {
    hide RequiredToken, SkipLine, AliasTarget, ParenGroup, Group, WellFormed;
    var (token, c1) :- RequiredToken(s, c);
    var x := token.bytes;
    if x == Text("global") || x == Text("constant") then
      var (_, c2) :- SkipLine(s, c1.(header := None));
      Ok((None, c2))
    else if x == Text("alias") then
      var (target, c2) :- AliasTarget(s, c1);
      Ok((Some(if target.Some? then DirectAlias(target.value) else ExpressionAlias), c2))
    else if x == Text("ifunc") then
      var (_, c2) :- AliasTarget(s, c1);
      Ok((Some(Ifunc), c2))
    else if x in MODIFIERS then GlobalKind(s, c1)
    else if x == Text("addrspace") then
      var (_, c2) :- ParenGroup(s, c1);
      GlobalKind(s, c2)
    else if x == Text("(") then
      var (_, c2) :- Group(s, c1, [')' as byte]);
      GlobalKind(s, c2)
    else Err(Malformed(token.offset))
  }

  /** A record's own checks: its symbol and a direct target are not empty. */
  function MakeDefinition(symbol: seq<byte>, start: nat, end: nat, kind: Kind): (r: Result<Definition, Error>)
    requires start <= end
    ensures r.Ok? ==> r.value.start == start && r.value.End() == end && r.value.symbol != []
    ensures r.Err? ==> r.error == Malformed(start)
  {
    if symbol == [] || (kind.DirectAlias? && kind.target == []) then Err(Malformed(start))
    else Ok(Definition(symbol, start, end - start, kind))
  }

  /** What one turn of the scan leaves: an optional record, and no header budget. */
  ghost predicate Turns(s: Source, c: Cursor, r: Step<Option<Definition>>) {
    match r
    case Ok((found, next)) =>
      && Fits(s, next) && next.header.None? && c.offset < next.offset
      && (found.Some? ==> found.value.start == c.offset && found.value.End() == next.offset)
    case Err(e) => Locates(s, c.(header := Some(c.offset)), c.offset, e)
  }

  function GlobalItem(s: Source, c: Cursor): (r: Step<Option<Definition>>)
    requires Fits(s, c) && c.header.None?
    ensures Turns(s, c, r)
  {
    var (token, c1) :- RequiredToken(s, c.(header := Some(c.offset)));
    var (_, c2) :- Expect(s, c1, Text("="));
    var (kind, c3) :- GlobalKind(s, c2);
    if kind.None? then Ok((None, c3))
    else
      var symbol :- Decode(token);
      var definition :- MakeDefinition(symbol, c.offset, c3.offset, kind.value);
      Ok((Some(definition), c3.(header := None)))
  }

  /** At most `length` bytes, never past a newline. */
  function Prefix(s: Source, c: Cursor, length: nat): (r: Step<()>)
    requires Fits(s, c) && c.header.None?
    ensures Keeps(s, c, r)
    ensures r.Ok? ==> r.value.1.offset <= c.offset + length
    decreases length
  {
    if length == 0 then Ok(((), c))
    else
      var (next, c1) :- Take(s, c);
      if next.None? || next.value == '\n' as byte then Ok(((), c1)) else Prefix(s, c1, length - 1)
  }

  function FunctionItem(s: Source, start: nat, c: Cursor): (r: Step<Option<Definition>>)
    requires Fits(s, c) && c.header.None? && start < c.offset <= start + 6
    ensures Turns(s, Cursor(start, None), r)
  {
    var (symbol, c1) :- FunctionHeader(s, c.(header := Some(start)));
    var (_, c2) :- Body(s, c1.(header := None), 1, Plain);
    var definition :- MakeDefinition(symbol, start, c2.offset, Function);
    Ok((Some(definition), c2))
  }

  /** A line that does not start with `@`: a function if it starts with its keyword, else skipped. */
  function LineItem(s: Source, c: Cursor): (r: Step<Option<Definition>>)
    requires Fits(s, c) && c.header.None? && c.offset < |s.bytes|
    ensures Turns(s, c, r)
  {
    var (_, c1) :- Prefix(s, c, if s.bytes[c.offset] == 'd' as byte then 6 else 0);
    var prefix := s.bytes[c.offset..c1.offset];
    var next :- if prefix == Text("define") then Peek(s, c1) else Ok(None);
    if prefix == Text("define") && (next.None? || IsWhitespace(next.value)) then FunctionItem(s, c.offset, c1)
    else if '\n' as byte in prefix then Ok((None, c1))
    else
      var (_, c2) :- SkipLine(s, c1);
      Ok((None, c2))
  }

  /** One turn of the scan, at a byte. */
  function Item(s: Source, c: Cursor): (r: Step<Option<Definition>>)
    requires Fits(s, c) && c.header.None? && c.offset < |s.bytes|
    ensures Turns(s, c, r)
  {
    var b := s.bytes[c.offset];
    if IsWhitespace(b) then
      var (_, c1) :- Take(s, c);
      Ok((None, c1))
    else if b == '@' as byte then GlobalItem(s, c)
    else LineItem(s, c)
  }

  function Found(item: Option<Definition>): seq<Definition> {
    if item.None? then [] else [item.value]
  }

  /** The definitions from a cursor to the end of the input. */
  function Definitions(s: Source, c: Cursor): Result<seq<Definition>, Error>
    requires Fits(s, c) && c.header.None?
    decreases |s.bytes| - c.offset
  {
    var next :- Peek(s, c);
    if next.None? then Ok([])
    else
      var (item, c1) :- Item(s, c);
      var rest :- Definitions(s, c1);
      Ok(Found(item) + rest)
  }

  /** The index of a complete input: its definitions in order, or the first error with its offset. */
  function Index(s: Source): Result<seq<Definition>, Error> {
    Definitions(s, Cursor(0, None))
  }
}
