/** A header alone, without the rest of its line or its body, and what a record is made of beside it. */
module Headers {
  import opened Base
  import opened IndexRecords
  import opened Lexis
  import opened Symbols
  import opened Grammar

  // ---- The header of a line that starts with `@` ----

  predicate IsKeyword(x: seq<byte>) {
    IsVariableKeyword(x) || x == Text("alias") || x == Text("ifunc")
  }

  predicate IsVariableKeyword(x: seq<byte>) {
    x == Text("global") || x == Text("constant")
  }

  function AliasKind(target: Option<seq<byte>>): Kind {
    if target.Some? then DirectAlias(target.value) else ExpressionAlias
  }

  /** The kind that a keyword introduces, or nothing for a variable's, after which its line is not read. */
  function AfterKeyword(s: Source, c: Cursor, x: seq<byte>): (r: Step<Option<Kind>>)
    requires Fits(s, c) && IsKeyword(x)
    ensures Keeps(s, c, r)
  {
    if IsVariableKeyword(x) then Ok((None, c))
    else
      var (target, c1) :- AliasTarget(s, c);
      Ok((Some(if x == Text("alias") then AliasKind(target) else Ifunc), c1))
  }

  /** The rest of one modifier after its first token. */
  function AfterModifier(s: Source, c: Cursor, token: Token): (r: Step<()>)
    requires Fits(s, c)
    ensures KeepsAfter(s, c, token, r)
  {
    var x := token.bytes;
    if x in MODIFIERS then Ok(((), c))
    else if x == Text("addrspace") then ParenGroup(s, c)
    else if x == Text("(") then Group(s, c, [')' as byte])
    else Err(Malformed(token.offset))
  }

  /** The kind of an alias or ifunc, or nothing just after the keyword of a variable. */
  function GlobalHead(s: Source, c: Cursor): (r: Step<Option<Kind>>)
    requires Fits(s, c)
    ensures Keeps(s, c, r) && (r.Ok? ==> c.offset < r.value.1.offset)
    decreases |s.bytes| - c.offset
  {
    hide AfterKeyword, AfterModifier, RequiredToken, WellFormed;
    var (token, c1) :- RequiredToken(s, c);
    if IsKeyword(token.bytes) then AfterKeyword(s, c1, token.bytes)
    else
      var (_, c2) :- AfterModifier(s, c1, token);
      GlobalHead(s, c2)
  }

  datatype Head = Head(token: Token, kind: Option<Kind>)

  /** A line's symbol token and kind. */
  function LineHead(s: Source, c: Cursor): (r: Step<Head>)
    requires Fits(s, c)
    ensures Keeps(s, c, r) && (r.Ok? ==> c.offset < r.value.1.offset)
  {
    hide RequiredToken, Expect, GlobalHead, WellFormed;
    var (token, c1) :- RequiredToken(s, c);
    var (_, c2) :- Expect(s, c1, Text("="));
    var (kind, c3) :- GlobalHead(s, c2);
    Ok((Head(token, kind), c3))
  }

  /** What follows a header: the rest of a variable's line, without a budget, and nothing otherwise. */
  function RestOf(s: Source, head: Step<Option<Kind>>): Step<Option<Kind>>
    requires head.Ok? ==> Fits(s, head.value.1)
  {
    var (kind, c) :- head;
    if kind.Some? then Ok((kind, c))
    else
      var (_, c1) :- SkipLine(s, c.(header := None));
      Ok((None, c1))
  }

  lemma {:induction false} KindIsHeadThenLine(s: Source, c: Cursor)
    requires Fits(s, c)
    ensures GlobalKind(s, c) == RestOf(s, GlobalHead(s, c))
    decreases |s.bytes| - c.offset
  {
    hide RequiredToken, AliasTarget, ParenGroup, Group, SkipLine, WellFormed;
    if RequiredToken(s, c).Ok? {
      var (token, c1) := RequiredToken(s, c).value;
      if !IsKeyword(token.bytes) && AfterModifier(s, c1, token).Ok? {
        KindIsHeadThenLine(s, AfterModifier(s, c1, token).value.1);
      }
    }
  }

  /** A line's record, or nothing and the end of the line for a variable. */
  function ItemOf(s: Source, start: nat, head: Step<Head>): Step<Option<Definition>>
    requires head.Ok? ==> Fits(s, head.value.1) && start <= head.value.1.offset && WellFormed(head.value.0.token.bytes)
  {
    var (found, c) :- head;
    if found.kind.None? then
      var (_, c1) :- SkipLine(s, c.(header := None));
      Ok((None, c1))
    else
      var symbol :- Decode(found.token);
      var definition :- MakeDefinition(symbol, start, c.offset, found.kind.value);
      Ok((Some(definition), c.(header := None)))
  }

  /** A function's record from its header: the header's error, the body's, or what both delimit. */
  function FunctionOf(s: Source, start: nat, header: Step<seq<byte>>): Step<Option<Definition>>
    requires header.Ok? ==> Fits(s, header.value.1) && start <= header.value.1.offset
  {
    var (symbol, body) :- header;
    var (_, end) :- Body(s, body.(header := None), 1, Plain);
    var definition :- MakeDefinition(symbol, start, end.offset, Function);
    Ok((Some(definition), end))
  }

  lemma HeadIsWellFormed(s: Source, c: Cursor)
    requires Fits(s, c) && LineHead(s, c).Ok?
    ensures WellFormed(LineHead(s, c).value.0.token.bytes)
  {
    hide Expect, GlobalHead, WellFormed;
  }

  lemma ItemIsHeadThenRest(s: Source, c: Cursor)
    requires Fits(s, c) && c.header.None?
    ensures var head := LineHead(s, c.(header := Some(c.offset)));
            (head.Ok? ==> WellFormed(head.value.0.token.bytes)) && GlobalItem(s, c) == ItemOf(s, c.offset, head)
  {
    hide RequiredToken, Expect, GlobalHead, GlobalKind, SkipLine, Decode, MakeDefinition, WellFormed;
    var d := c.(header := Some(c.offset));
    if RequiredToken(s, d).Ok? {
      var c1 := RequiredToken(s, d).value.1;
      if Expect(s, c1, Text("=")).Ok? {
        KindIsHeadThenLine(s, Expect(s, c1, Text("=")).value.1);
      }
    }
  }
}
