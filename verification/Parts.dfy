/**
 What the header of a record is: its parts in order, as relations on offsets that mention no code that
 reads them. The scanning functions accept exactly these, so a header determines its symbol, its kind
 and its end.
 */
module Parts {
  import opened Base
  import opened IndexRecords
  import opened Lexis
  import opened Symbols
  import opened Grammar
  import opened Headers
  import opened Tokens

  /** The offsets at which consecutive parts end. */
  datatype Marks = Here | Mark(end: nat, rest: Marks)

  // ---- Groups and names ----

  /** The group that a token opens; other tokens stand alone, and none closes a group. */
  ghost predicate OwnGroup(s: Source, x: seq<byte>, i: nat, j: nat) {
    if |x| == 1 && IsOpening(x[0]) then GroupIs(s, i, MatchingClose(x[0]).value, j) else StandsAlone(x) && i == j
  }

  ghost predicate ParensAre(s: Source, i: nat, j: nat) {
    exists k :: TokenIs(s, i, Text("("), k) && GroupIs(s, k, ')' as byte, j)
  }

  /** The token is a global with this name. */
  ghost predicate Names(x: seq<byte>, name: seq<byte>) {
    WellFormed(x) && StartsWith(x, '@' as byte) && Decode(Token(x, 0)) == Ok(name)
  }

  ghost predicate NameIs(s: Source, i: nat, j: nat, name: seq<byte>) {
    exists x :: TokenIs(s, i, x, j) && Names(x, name)
  }

  ghost predicate IsGlobalName(x: seq<byte>) {
    WellFormed(x) && Decode(Token(x, 0)).Ok?
  }

  lemma OpenedIff(s: Source, token: Token, i: nat, j: nat)
    requires Fits(s, At(i))
    ensures OwnGroup(s, token.bytes, i, j) <==> Ends(OpenedGroup(s, At(i), token), j)
  {
    hide Group, GroupIs;
    if |token.bytes| == 1 && IsOpening(token.bytes[0]) {
      GroupIff(s, i, MatchingClose(token.bytes[0]).value, j);
    }
  }

  lemma ParensIff(s: Source, i: nat, j: nat)
    ensures ParensAre(s, i, j) <==> Fits(s, At(i)) && Ends(ParenGroup(s, At(i)), j)
  {
    hide Group, GroupIs, TokenIs, RequiredToken, WellFormed;
    if ParensAre(s, i, j) {
      var k :| TokenIs(s, i, Text("("), k) && GroupIs(s, k, ')' as byte, j);
      TokenGives(s, i, Text("("), k);
      GroupIff(s, k, ')' as byte, j);
    }
    if Fits(s, At(i)) && Ends(ParenGroup(s, At(i)), j) {
      var x, k := TokenRead(s, i);
      GroupIff(s, k, ')' as byte, j);
    }
  }

  lemma NameIff(s: Source, i: nat, j: nat, name: seq<byte>)
    ensures NameIs(s, i, j, name) <==>
              && Fits(s, At(i)) && Ends(RequiredToken(s, At(i)), j)
              && Names(RequiredToken(s, At(i)).value.0.bytes, name)
  {
    hide TokenIs, RequiredToken, Names;
    if NameIs(s, i, j, name) {
      var x :| TokenIs(s, i, x, j) && Names(x, name);
      TokenGives(s, i, x, j);
    }
    if Fits(s, At(i)) && Ends(RequiredToken(s, At(i)), j) && Names(RequiredToken(s, At(i)).value.0.bytes, name) {
      var x, e := TokenRead(s, i);
    }
  }

  /** Where a token stands matters to no name. */
  lemma NameOfToken(token: Token)
    requires WellFormed(token.bytes)
    ensures Decode(token).Ok? == Decode(Token(token.bytes, 0)).Ok?
    ensures Decode(token).Ok? ==> Decode(token) == Decode(Token(token.bytes, 0))
  {
    hide WellFormed, IsNamed, NameOf;
  }

  // ---- Constants ----

  ghost predicate AreFlags(s: Source, i: nat, marks: Marks, k: nat)
    decreases marks
  {
    match marks
    case Here => i == k
    case Mark(end, rest) => (exists x :: TokenIs(s, i, x, end) && IsPointerFlag(x)) && AreFlags(s, end, rest, k)
  }

  /** Operands in parentheses, after flags where an opcode has them. */
  ghost predicate OperandsAre(s: Source, flags: bool, i: nat, j: nat) {
    exists marks, k :: AreFlags(s, i, marks, k) && (flags || i == k) && ParensAre(s, k, j)
  }

  /** The rest of a constant that starts with the token `x`. */
  ghost predicate ConstantIs(s: Source, x: seq<byte>, i: nat, j: nat) {
    if |x| == 1 && IsOpening(x[0]) then GroupIs(s, i, MatchingClose(x[0]).value, j)
    else if StartsWith(x, '@' as byte) then IsGlobalName(x) && i == j
    else if x == Text("dso_local_equivalent") || x == Text("no_cfi") then
      exists y :: TokenIs(s, i, y, j) && IsGlobalName(y)
    else if x == Text("c") then exists y :: TokenIs(s, i, y, j) && StartsWith(y, '"' as byte)
    else if IsSimpleConstant(x) then i == j
    else IsConstantOpcode(x) && OperandsAre(s, x == Text("getelementptr"), i, j)
  }

  ghost predicate AddressSpaceIs(s: Source, i: nat, j: nat) {
    exists k :: i < k <= j && TokenIs(s, i, Text("addrspace"), k) && ParensAre(s, k, j)
  }

  /** The first token of a value, after the address space of a pointer if it has one. */
  ghost predicate ValueIs(s: Source, isPointer: bool, i: nat, x: seq<byte>, j: nat) {
    || (TokenIs(s, i, x, j) && (isPointer ==> x != Text("addrspace")))
    || (isPointer && exists q :: i < q < j && AddressSpaceIs(s, i, q) && TokenIs(s, q, x, j))
  }

  /** A type with its group, and a value of that type. */
  ghost predicate TypedConstantIs(s: Source, i: nat, j: nat) {
    exists ty, e, g, x, v ::
      && TokenIs(s, i, ty, e) && OwnGroup(s, ty, e, g)
      && ValueIs(s, ty == Text("ptr"), g, x, v) && ConstantIs(s, x, v, j)
  }

  /** A pointer flag is skipped by reading on. */
  lemma FlagStep(s: Source, i: nat, x: seq<byte>, e: nat)
    requires TokenIs(s, i, x, e) && IsPointerFlag(x)
    ensures Fits(s, At(i)) && Fits(s, At(e))
    ensures ConstantOperands(s, At(i), true) == ConstantOperands(s, At(e), true)
  {
    hide TokenIs, RequiredToken, WellFormed, Group, IsPointerFlag;
    TokenGives(s, i, x, e);
  }

  /** Without a flag, parentheses follow. */
  lemma NoFlagStep(s: Source, flags: bool, i: nat, j: nat)
    requires Fits(s, At(i))
    requires RequiredToken(s, At(i)).Ok? ==> !flags || !IsPointerFlag(RequiredToken(s, At(i)).value.0.bytes)
    ensures Ends(ConstantOperands(s, At(i), flags), j) <==> Ends(ParenGroup(s, At(i)), j)
  {
    hide RequiredToken, WellFormed, Group, IsPointerFlag;
  }

  lemma ParensAreNoFlag(s: Source, i: nat, j: nat)
    requires ParensAre(s, i, j)
    ensures Fits(s, At(i)) && RequiredToken(s, At(i)).Ok?
    ensures !IsPointerFlag(RequiredToken(s, At(i)).value.0.bytes)
  {
    hide TokenIs, GroupIs, RequiredToken, WellFormed;
    var k :| TokenIs(s, i, Text("("), k) && GroupIs(s, k, ')' as byte, j);
    TokenGives(s, i, Text("("), k);
    assert |Text("(")| == 1;
  }

  lemma {:induction false} FlagsGiveOperands(s: Source, i: nat, marks: Marks, k: nat, j: nat)
    requires AreFlags(s, i, marks, k) && ParensAre(s, k, j)
    ensures Fits(s, At(i)) && Ends(ConstantOperands(s, At(i), true), j)
    decreases marks
  {
    hide TokenIs, RequiredToken, ParensAre, ParenGroup, ConstantOperands, IsPointerFlag;
    match marks
    case Here =>
      ParensAreNoFlag(s, i, j);
      ParensIff(s, i, j);
      NoFlagStep(s, true, i, j);
    case Mark(end, rest) =>
      FlagsGiveOperands(s, end, rest, k, j);
      var x :| TokenIs(s, i, x, end) && IsPointerFlag(x);
      FlagStep(s, i, x, end);
  }

  lemma {:induction false} OperandsGiveFlags(s: Source, i: nat, j: nat) returns (marks: Marks, k: nat)
    requires Fits(s, At(i)) && Ends(ConstantOperands(s, At(i), true), j)
    ensures AreFlags(s, i, marks, k) && ParensAre(s, k, j)
    decreases |s.bytes| - i
  {
    hide TokenIs, RequiredToken, ParensAre, ParenGroup, SkipFlags, Group, IsPointerFlag, WellFormed;
    var x, e := TokenRead(s, i);
    if IsPointerFlag(x) {
      FlagStep(s, i, x, e);
      marks, k := OperandsGiveFlags(s, e, j);
      marks := Mark(e, marks);
    } else {
      NoFlagStep(s, true, i, j);
      ParensIff(s, i, j);
      marks, k := Here, i;
    }
  }

  lemma OperandsIff(s: Source, flags: bool, i: nat, j: nat)
    requires Fits(s, At(i))
    ensures OperandsAre(s, flags, i, j) <==> Ends(ConstantOperands(s, At(i), flags), j)
  {
    hide RequiredToken, ParensAre, ParenGroup, ConstantOperands, AreFlags, IsPointerFlag;
    if OperandsAre(s, flags, i, j) {
      var marks, k :| AreFlags(s, i, marks, k) && (flags || i == k) && ParensAre(s, k, j);
      if flags {
        FlagsGiveOperands(s, i, marks, k, j);
      } else {
        NoFlagStep(s, false, i, j);
        ParensIff(s, i, j);
      }
    }
    if Ends(ConstantOperands(s, At(i), flags), j) {
      if flags {
        var marks, k := OperandsGiveFlags(s, i, j);
      } else {
        NoFlagStep(s, false, i, j);
        ParensIff(s, i, j);
        assert AreFlags(s, i, Here, i) by { NoFlags(s, i); }
      }
    }
  }

  lemma NoFlags(s: Source, i: nat)
    ensures AreFlags(s, i, Here, i)
  {
  }

  lemma ConstantIff(s: Source, token: Token, i: nat, j: nat)
    requires Fits(s, At(i)) && WellFormed(token.bytes)
    ensures ConstantIs(s, token.bytes, i, j) <==> Ends(Constant(s, At(i), token), j)
  {
    hide TokenIs, GroupIs, OperandsAre, RequiredToken, ConstantOperands, Group, WellFormed, Decode,
      IsSimpleConstant, IsConstantOpcode;
    var x := token.bytes;
    NameOfToken(token);
    if |x| == 1 && IsOpening(x[0]) {
      GroupIff(s, i, MatchingClose(x[0]).value, j);
    } else if x == Text("dso_local_equivalent") || x == Text("no_cfi") || x == Text("c") {
      FollowedByToken(s, i, j);
      if RequiredToken(s, At(i)).Ok? {
        NameOfToken(RequiredToken(s, At(i)).value.0);
      }
    } else {
      OperandsIff(s, x == Text("getelementptr"), i, j);
    }
  }

  /** The token that follows is the one that is read. */
  lemma FollowedByToken(s: Source, i: nat, j: nat)
    requires Fits(s, At(i))
    ensures Ends(RequiredToken(s, At(i)), j) ==> TokenIs(s, i, RequiredToken(s, At(i)).value.0.bytes, j)
    ensures forall y :: TokenIs(s, i, y, j) ==>
                          Ends(RequiredToken(s, At(i)), j) && RequiredToken(s, At(i)).value.0.bytes == y
  {
    hide TokenIs, RequiredToken;
    forall y | TokenIs(s, i, y, j)
      ensures Ends(RequiredToken(s, At(i)), j) && RequiredToken(s, At(i)).value.0.bytes == y
    {
      TokenGives(s, i, y, j);
    }
    if Ends(RequiredToken(s, At(i)), j) {
      var x, e := TokenRead(s, i);
    }
  }

  lemma AddressSpaceIff(s: Source, i: nat, x: seq<byte>, e: nat, j: nat)
    requires TokenIs(s, i, x, e)
    ensures Fits(s, At(e)) && (AddressSpaceIs(s, i, j) <==> x == Text("addrspace") && Ends(ParenGroup(s, At(e)), j))
  {
    hide TokenIs, RequiredToken, ParensAre, ParenGroup, WellFormed;
    TokenGives(s, i, x, e);
    if AddressSpaceIs(s, i, j) {
      var k :| i < k <= j && TokenIs(s, i, Text("addrspace"), k) && ParensAre(s, k, j);
      TokenGives(s, i, Text("addrspace"), k);
      ParensIff(s, k, j);
    }
    if x == Text("addrspace") && Ends(ParenGroup(s, At(e)), j) {
      ParensIff(s, e, j);
    }
  }

  /** The first token of a value, as it is read. */
  function ReadValue(s: Source, c: Cursor, isPointer: bool): (r: Step<Token>)
    requires Fits(s, c)
    ensures Keeps(s, c, r) && (r.Ok? ==> WellFormed(r.value.0.bytes))
  {
    hide WellFormed;
    var (value, c1) :- RequiredToken(s, c);
    if isPointer then AfterAddressSpace(s, c1, value) else Ok((value, c1))
  }

  lemma ValueIff(s: Source, isPointer: bool, i: nat, x: seq<byte>, j: nat)
    requires Fits(s, At(i))
    ensures ValueIs(s, isPointer, i, x, j) <==>
              Ends(ReadValue(s, At(i), isPointer), j) && ReadValue(s, At(i), isPointer).value.0.bytes == x
  {
    hide TokenIs, RequiredToken, AddressSpaceIs, ParenGroup, WellFormed;
    if ValueIs(s, isPointer, i, x, j) {
      if TokenIs(s, i, x, j) && (isPointer ==> x != Text("addrspace")) {
        TokenGives(s, i, x, j);
      } else {
        var q :| i < q < j && AddressSpaceIs(s, i, q) && TokenIs(s, q, x, j);
        var y, e := SpaceStarts(s, i, q);
        AddressSpaceIff(s, i, y, e, q);
        TokenGives(s, q, x, j);
      }
    }
    if Ends(ReadValue(s, At(i), isPointer), j) && ReadValue(s, At(i), isPointer).value.0.bytes == x {
      var y, e := TokenRead(s, i);
      if isPointer && y == Text("addrspace") {
        var q := ParenGroup(s, At(e)).value.1.offset;
        AddressSpaceIff(s, i, y, e, q);
        var z, f := TokenRead(s, q);
      }
    }
  }

  lemma SpaceStarts(s: Source, i: nat, q: nat) returns (y: seq<byte>, e: nat)
    requires AddressSpaceIs(s, i, q)
    ensures TokenIs(s, i, y, e) && Fits(s, At(i))
    ensures RequiredToken(s, At(i)).Ok? && RequiredToken(s, At(i)).value.0.bytes == y
    ensures RequiredToken(s, At(i)).value.1 == At(e) && WellFormed(y)
  {
    hide TokenIs, RequiredToken, ParensAre, WellFormed;
    y := Text("addrspace");
    e :| TokenIs(s, i, Text("addrspace"), e);
    TokenGives(s, i, y, e);
  }

  lemma TypedConstantIff(s: Source, i: nat, j: nat)
    ensures TypedConstantIs(s, i, j) <==> Fits(s, At(i)) && Ends(TypedConstant(s, At(i)), j)
  {
    hide TokenIs, OwnGroup, ValueIs, ConstantIs, RequiredToken, OpenedGroup, AfterAddressSpace, Constant, WellFormed;
    if TypedConstantIs(s, i, j) {
      var ty, e, g, x, v :|
        && TokenIs(s, i, ty, e) && OwnGroup(s, ty, e, g)
        && ValueIs(s, ty == Text("ptr"), g, x, v) && ConstantIs(s, x, v, j);
      TokenGives(s, i, ty, e);
      OpenedIff(s, RequiredToken(s, At(i)).value.0, e, g);
      ValueIff(s, ty == Text("ptr"), g, x, v);
      ConstantIff(s, ReadValue(s, At(g), ty == Text("ptr")).value.0, v, j);
    }
    if Fits(s, At(i)) && Ends(TypedConstant(s, At(i)), j) {
      var ty, e := TokenRead(s, i);
      var token := RequiredToken(s, At(i)).value.0;
      var g := OpenedGroup(s, At(e), token).value.1.offset;
      OpenedIff(s, token, e, g);
      var value := ReadValue(s, At(g), ty == Text("ptr")).value;
      ValueIff(s, ty == Text("ptr"), g, value.0.bytes, value.1.offset);
      ConstantIff(s, value.0, value.1.offset, j);
    }
  }

  // ---- Functions ----

  /** A result type or attribute: a token that is no global, with its group if it opens one. */
  ghost predicate IsPart(s: Source, i: nat, j: nat) {
    exists x, e ::
      TokenIs(s, i, x, e) && !StartsWith(x, '@' as byte) && !EndsHeader(x) && OwnGroup(s, x, e, j)
  }

  ghost predicate AreParts(s: Source, i: nat, marks: Marks, k: nat)
    decreases marks
  {
    match marks
    case Here => i == k
    case Mark(end, rest) => IsPart(s, i, end) && AreParts(s, end, rest, k)
  }

  /** A token with its own group. */
  ghost predicate MetadataIs(s: Source, i: nat, j: nat) {
    exists x, e :: TokenIs(s, i, x, e) && OwnGroup(s, x, e, j)
  }

  /** The rest of a suffix that starts with `x`: a typed constant, metadata, or an attribute. */
  ghost predicate SuffixIs(s: Source, x: seq<byte>, i: nat, j: nat) {
    if x == Text("prefix") || x == Text("prologue") || x == Text("personality") then TypedConstantIs(s, i, j)
    else if x == Text("!") then MetadataIs(s, i, j)
    else !EndsHeader(x) && OwnGroup(s, x, i, j)
  }

  /** A suffix: anything but the brace that opens the body. */
  ghost predicate IsSuffix(s: Source, i: nat, j: nat) {
    exists x, e :: TokenIs(s, i, x, e) && x != Text("{") && SuffixIs(s, x, e, j)
  }

  ghost predicate AreSuffixes(s: Source, i: nat, marks: Marks, k: nat)
    decreases marks
  {
    match marks
    case Here => i == k
    case Mark(end, rest) => IsSuffix(s, i, end) && AreSuffixes(s, end, rest, k)
  }

  /** Parts, and then the first global outside groups, which is the function's name. */
  ghost predicate HasName(s: Source, i: nat, j: nat, symbol: seq<byte>) {
    exists marks, k :: i <= k < j && AreParts(s, i, marks, k) && NameIs(s, k, j, symbol)
  }

  /** Suffixes, and then the brace that opens the body. */
  ghost predicate Opens(s: Source, i: nat, j: nat) {
    exists marks, k :: i <= k < j && AreSuffixes(s, i, marks, k) && TokenIs(s, k, Text("{"), j)
  }

  /** A name, its arguments, and suffixes through the brace that opens the body. */
  ghost predicate IsFunctionHead(s: Source, i: nat, body: nat, symbol: seq<byte>) {
    exists n, a :: i < n <= a < body && HasName(s, i, n, symbol) && ParensAre(s, n, a) && Opens(s, a, body)
  }

  lemma MetadataIff(s: Source, i: nat, j: nat)
    ensures MetadataIs(s, i, j) <==>
              && Fits(s, At(i)) && RequiredToken(s, At(i)).Ok?
              && Ends(OpenedGroup(s, RequiredToken(s, At(i)).value.1, RequiredToken(s, At(i)).value.0), j)
  {
    hide TokenIs, OwnGroup, RequiredToken, OpenedGroup, WellFormed;
    if MetadataIs(s, i, j) {
      var x, e :| TokenIs(s, i, x, e) && OwnGroup(s, x, e, j);
      TokenGives(s, i, x, e);
      OpenedIff(s, RequiredToken(s, At(i)).value.0, e, j);
    }
    if Fits(s, At(i)) && RequiredToken(s, At(i)).Ok? {
      var x, e := TokenRead(s, i);
      OpenedIff(s, RequiredToken(s, At(i)).value.0, e, j);
    }
  }

  lemma SuffixIff(s: Source, token: Token, i: nat, j: nat)
    requires Fits(s, At(i))
    ensures SuffixIs(s, token.bytes, i, j) <==> Ends(SuffixPart(s, At(i), token), j)
  {
    hide TypedConstantIs, MetadataIs, OwnGroup, TypedConstant, RequiredToken, OpenedGroup, EndsHeader, WellFormed;
    TypedConstantIff(s, i, j);
    MetadataIff(s, i, j);
    OpenedIff(s, token, i, j);
  }

  lemma {:induction false} NameGivesParts(s: Source, i: nat, j: nat, symbol: seq<byte>)
    requires Fits(s, At(i)) && Ends(FunctionName(s, At(i)), j) && FunctionName(s, At(i)).value.0 == symbol
    ensures HasName(s, i, j, symbol)
    decreases |s.bytes| - i
  {
    hide TokenIs, OwnGroup, RequiredToken, OpenedGroup, Decode, WellFormed, EndsHeader;
    var x, e := TokenRead(s, i);
    var token := RequiredToken(s, At(i)).value.0;
    if StartsWith(x, '@' as byte) {
      NameOfToken(token);
      assert AreParts(s, i, Here, i) && NameIs(s, i, j, symbol);
    } else {
      var next := OpenedGroup(s, At(e), token).value.1.offset;
      OpenedIff(s, token, e, next);
      NameGivesParts(s, next, j, symbol);
      var marks, k :| next <= k < j && AreParts(s, next, marks, k) && NameIs(s, k, j, symbol);
      assert IsPart(s, i, next);
      assert AreParts(s, i, Mark(next, marks), k);
    }
  }

  lemma {:induction false} PartsGiveName(s: Source, i: nat, marks: Marks, k: nat, j: nat, symbol: seq<byte>)
    requires AreParts(s, i, marks, k) && NameIs(s, k, j, symbol)
    ensures Fits(s, At(i)) && Ends(FunctionName(s, At(i)), j) && FunctionName(s, At(i)).value.0 == symbol
    decreases marks
  {
    hide TokenIs, OwnGroup, RequiredToken, OpenedGroup, Decode, WellFormed, EndsHeader;
    match marks
    case Here =>
      var x :| TokenIs(s, i, x, j) && Names(x, symbol);
      TokenGives(s, i, x, j);
      NameOfToken(RequiredToken(s, At(i)).value.0);
    case Mark(end, rest) =>
      PartsGiveName(s, end, rest, k, j, symbol);
      var x, e :|
        TokenIs(s, i, x, e) && !StartsWith(x, '@' as byte) && !EndsHeader(x) && OwnGroup(s, x, e, end);
      TokenGives(s, i, x, e);
      OpenedIff(s, RequiredToken(s, At(i)).value.0, e, end);
  }

  lemma {:induction false} SuffixGivesParts(s: Source, i: nat, j: nat)
    requires Fits(s, At(i)) && Ends(FunctionSuffix(s, At(i)), j)
    ensures Opens(s, i, j)
    decreases |s.bytes| - i
  {
    hide TokenIs, SuffixIs, RequiredToken, SuffixPart, WellFormed;
    var x, e := TokenRead(s, i);
    var token := RequiredToken(s, At(i)).value.0;
    if x == Text("{") {
      assert AreSuffixes(s, i, Here, i) && TokenIs(s, i, Text("{"), j);
    } else {
      var next := SuffixPart(s, At(e), token).value.1.offset;
      SuffixIff(s, token, e, next);
      SuffixGivesParts(s, next, j);
      var marks, k :| next <= k < j && AreSuffixes(s, next, marks, k) && TokenIs(s, k, Text("{"), j);
      assert IsSuffix(s, i, next);
      assert AreSuffixes(s, i, Mark(next, marks), k);
    }
  }

  lemma {:induction false} PartsGiveSuffix(s: Source, i: nat, marks: Marks, k: nat, j: nat)
    requires AreSuffixes(s, i, marks, k) && TokenIs(s, k, Text("{"), j)
    ensures Fits(s, At(i)) && Ends(FunctionSuffix(s, At(i)), j)
    decreases marks
  {
    hide TokenIs, SuffixIs, RequiredToken, SuffixPart, WellFormed;
    match marks
    case Here => TokenGives(s, i, Text("{"), j);
    case Mark(end, rest) =>
      PartsGiveSuffix(s, end, rest, k, j);
      var x, e :| TokenIs(s, i, x, e) && x != Text("{") && SuffixIs(s, x, e, end);
      TokenGives(s, i, x, e);
      SuffixIff(s, RequiredToken(s, At(i)).value.0, e, end);
  }

  /** A function's header is exactly these parts, so it determines its symbol and where its body starts. */
  lemma FunctionHeadIs(s: Source, i: nat, body: nat, symbol: seq<byte>)
    ensures Fits(s, At(i)) && Ends(FunctionHeader(s, At(i)), body) && FunctionHeader(s, At(i)).value.0 == symbol
       <==> IsFunctionHead(s, i, body, symbol)
  {
    hide FunctionName, ParenGroup, FunctionSuffix, ParensAre, AreParts, AreSuffixes, NameIs, TokenIs;
    if Fits(s, At(i)) && Ends(FunctionHeader(s, At(i)), body) && FunctionHeader(s, At(i)).value.0 == symbol {
      var n := FunctionName(s, At(i)).value.1.offset;
      var a := ParenGroup(s, At(n)).value.1.offset;
      NameGivesParts(s, i, n, symbol);
      ParensIff(s, n, a);
      SuffixGivesParts(s, a, body);
    }
    if IsFunctionHead(s, i, body, symbol) {
      var n, a :| i < n <= a < body && HasName(s, i, n, symbol) && ParensAre(s, n, a) && Opens(s, a, body);
      var marks, k :| i <= k < n && AreParts(s, i, marks, k) && NameIs(s, k, n, symbol);
      PartsGiveName(s, i, marks, k, n, symbol);
      ParensIff(s, n, a);
      var others, w :| a <= w < body && AreSuffixes(s, a, others, w) && TokenIs(s, w, Text("{"), body);
      PartsGiveSuffix(s, a, others, w, body);
    }
  }

  // ---- Lines that start with `@` ----

  /** The rest of a modifier that starts with `x`. */
  ghost predicate ModifierIs(s: Source, x: seq<byte>, i: nat, j: nat) {
    if x in MODIFIERS then i == j
    else if x == Text("addrspace") then ParensAre(s, i, j)
    else x == Text("(") && GroupIs(s, i, ')' as byte, j)
  }

  /** A token that is no keyword, with its group if it has one. */
  ghost predicate IsModifier(s: Source, i: nat, j: nat) {
    exists x, e :: TokenIs(s, i, x, e) && !IsKeyword(x) && ModifierIs(s, x, e, j)
  }

  ghost predicate AreModifiers(s: Source, i: nat, marks: Marks, k: nat)
    decreases marks
  {
    match marks
    case Here => i == k
    case Mark(end, rest) => IsModifier(s, i, end) && AreModifiers(s, end, rest, k)
  }

  predicate EndsType(x: seq<byte>) {
    x == Text("=") || x == Text("define") || x == Text("declare") || StartsWith(x, '@' as byte)
  }

  ghost predicate IsTypePart(s: Source, i: nat, j: nat) {
    exists x, e :: TokenIs(s, i, x, e) && x != Text(",") && !EndsType(x) && OwnGroup(s, x, e, j)
  }

  ghost predicate AreTypeParts(s: Source, i: nat, marks: Marks, k: nat)
    decreases marks
  {
    match marks
    case Here => i == k
    case Mark(end, rest) => IsTypePart(s, i, end) && AreTypeParts(s, end, rest, k)
  }

  /** The rest of a type, through its comma. */
  ghost predicate TypeEnds(s: Source, i: nat, j: nat) {
    exists marks, k :: AreTypeParts(s, i, marks, k) && TokenIs(s, k, Text(","), j)
  }

  /** An alias's type and the comma after it. */
  ghost predicate IsType(s: Source, i: nat, j: nat) {
    exists x, e, g :: TokenIs(s, i, x, e) && x != Text(",") && OwnGroup(s, x, e, g) && TypeEnds(s, g, j)
  }

  /** A pointer to a global: the only operand that names an alias's target. */
  ghost predicate IsDirect(s: Source, i: nat, j: nat, target: seq<byte>) {
    exists p, x :: i < p < j && TokenIs(s, i, Text("ptr"), p) && ValueIs(s, true, p, x, j) && Names(x, target)
  }

  /** Any other constant, with a pointer type or none. */
  ghost predicate IsExpression(s: Source, i: nat, j: nat) {
    exists x, e ::
      && TokenIs(s, i, x, e)
      && if x == Text("ptr") then PointerIs(s, e, j) else !StartsWith(x, '@' as byte) && ConstantIs(s, x, e, j)
  }

  ghost predicate PointerIs(s: Source, i: nat, j: nat) {
    exists x, e :: ValueIs(s, true, i, x, e) && !StartsWith(x, '@' as byte) && ConstantIs(s, x, e, j)
  }

  ghost predicate IsOperand(s: Source, i: nat, j: nat, target: Option<seq<byte>>) {
    match target
    case Some(name) => IsDirect(s, i, j, name)
    case None => IsExpression(s, i, j)
  }

  /** One suffix after its comma: metadata, or a partition's name. */
  ghost predicate AliasSuffixIs(s: Source, i: nat, j: nat) {
    exists x, e ::
      && TokenIs(s, i, x, e)
      && if StartsWith(x, '!' as byte) then MetadataIs(s, e, j) else x == Text("partition") && QuotationIs(s, e, j)
  }

  ghost predicate QuotationIs(s: Source, i: nat, j: nat) {
    exists y :: TokenIs(s, i, y, j) && StartsWith(y, '"' as byte)
  }

  ghost predicate IsAliasSuffix(s: Source, i: nat, j: nat) {
    exists e :: LineTokenIs(s, i, Text(","), e) && AliasSuffixIs(s, e, j)
  }

  ghost predicate AreAliasSuffixes(s: Source, i: nat, marks: Marks, k: nat)
    decreases marks
  {
    match marks
    case Here => i == k
    case Mark(end, rest) => IsAliasSuffix(s, i, end) && AreAliasSuffixes(s, end, rest, k)
  }

  /** Suffixes to the end of the line. */
  ghost predicate IsTail(s: Source, i: nat, end: nat) {
    exists marks, k :: AreAliasSuffixes(s, i, marks, k) && EndsLine(s, k, end)
  }

  /** A type, an operand after its comma, and suffixes to the end of the line. */
  ghost predicate IsAlias(s: Source, i: nat, end: nat, target: Option<seq<byte>>) {
    exists m, o :: i < m <= o <= end && IsType(s, i, m) && IsOperand(s, m, o, target) && IsTail(s, o, end)
  }

  /** What follows a keyword, and the kind that it makes. */
  ghost predicate IsKind(s: Source, x: seq<byte>, i: nat, end: nat, kind: Option<Kind>) {
    match kind
    case None => IsVariableKeyword(x) && i == end
    case Some(DirectAlias(target)) => x == Text("alias") && IsAlias(s, i, end, Some(target))
    case Some(ExpressionAlias) => x == Text("alias") && IsAlias(s, i, end, None)
    case Some(Ifunc) => x == Text("ifunc") && exists target :: IsAlias(s, i, end, target)
    case Some(Function) => false
  }

  /** Modifiers, the keyword after them, and what it introduces. */
  ghost predicate IsHead(s: Source, i: nat, end: nat, kind: Option<Kind>) {
    exists marks, k, x, w ::
      && i <= k < w <= end
      && AreModifiers(s, i, marks, k) && TokenIs(s, k, x, w) && IsKeyword(x) && IsKind(s, x, w, end, kind)
  }

  /** The symbol's token `x`, an equals sign, and the rest of the header. */
  ghost predicate IsLineHead(s: Source, i: nat, x: seq<byte>, end: nat, kind: Option<Kind>) {
    exists n, equals ::
      i < n < equals <= end && TokenIs(s, i, x, n) && TokenIs(s, n, Text("="), equals) && IsHead(s, equals, end, kind)
  }

  lemma {:induction false} TypeGivesParts(s: Source, i: nat, j: nat)
    requires Fits(s, At(i)) && Ends(AliasType(s, At(i)), j)
    ensures TypeEnds(s, i, j)
    decreases |s.bytes| - i
  {
    hide TokenIs, OwnGroup, RequiredToken, OpenedGroup, WellFormed;
    var x, e := TokenRead(s, i);
    var token := RequiredToken(s, At(i)).value.0;
    if x == Text(",") {
      assert AreTypeParts(s, i, Here, i);
    } else {
      var next := OpenedGroup(s, At(e), token).value.1.offset;
      OpenedIff(s, token, e, next);
      TypeGivesParts(s, next, j);
      var marks, k :| AreTypeParts(s, next, marks, k) && TokenIs(s, k, Text(","), j);
      assert IsTypePart(s, i, next);
      assert AreTypeParts(s, i, Mark(next, marks), k);
    }
  }

  lemma {:induction false} PartsGiveType(s: Source, i: nat, marks: Marks, k: nat, j: nat)
    requires AreTypeParts(s, i, marks, k) && TokenIs(s, k, Text(","), j)
    ensures Fits(s, At(i)) && Ends(AliasType(s, At(i)), j)
    decreases marks
  {
    hide TokenIs, OwnGroup, RequiredToken, OpenedGroup, WellFormed;
    match marks
    case Here => TokenGives(s, i, Text(","), j);
    case Mark(end, rest) =>
      PartsGiveType(s, end, rest, k, j);
      var x, e :| TokenIs(s, i, x, e) && x != Text(",") && !EndsType(x) && OwnGroup(s, x, e, end);
      TokenGives(s, i, x, e);
      OpenedIff(s, RequiredToken(s, At(i)).value.0, e, end);
  }

  lemma TypeEndsIff(s: Source, i: nat, j: nat)
    ensures TypeEnds(s, i, j) <==> Fits(s, At(i)) && Ends(AliasType(s, At(i)), j)
  {
    hide TokenIs, AreTypeParts, AliasType;
    if TypeEnds(s, i, j) {
      var marks, k :| AreTypeParts(s, i, marks, k) && TokenIs(s, k, Text(","), j);
      PartsGiveType(s, i, marks, k, j);
    }
    if Fits(s, At(i)) && Ends(AliasType(s, At(i)), j) {
      TypeGivesParts(s, i, j);
    }
  }

  lemma PointerIff(s: Source, i: nat, j: nat)
    requires Fits(s, At(i))
    ensures PointerIs(s, i, j) <==>
              && ReadValue(s, At(i), true).Ok? && !StartsWith(ReadValue(s, At(i), true).value.0.bytes, '@' as byte)
              && Ends(Constant(s, ReadValue(s, At(i), true).value.1, ReadValue(s, At(i), true).value.0), j)
  {
    hide ValueIs, ConstantIs, ReadValue, Constant, WellFormed;
    if PointerIs(s, i, j) {
      var x, e :| ValueIs(s, true, i, x, e) && !StartsWith(x, '@' as byte) && ConstantIs(s, x, e, j);
      ValueIff(s, true, i, x, e);
      ConstantIff(s, ReadValue(s, At(i), true).value.0, e, j);
    }
    if ReadValue(s, At(i), true).Ok? {
      var value := ReadValue(s, At(i), true).value;
      ValueIff(s, true, i, value.0.bytes, value.1.offset);
      ConstantIff(s, value.0, value.1.offset, j);
    }
  }

  /** An operand that starts with `ptr` is the value after it. */
  lemma PointerOperand(s: Source, i: nat, e: nat)
    requires TokenIs(s, i, Text("ptr"), e)
    ensures Fits(s, At(i)) && Fits(s, At(e))
    ensures AliasOperand(s, At(i)).Ok? ==> ReadValue(s, At(e), true).Ok?
    ensures ReadValue(s, At(e), true).Ok? ==>
              AliasOperand(s, At(i))
              == TypedOperand(s, ReadValue(s, At(e), true).value.1, ReadValue(s, At(e), true).value.0)
  {
    hide TokenIs, RequiredToken, AfterAddressSpace, TypedOperand, Constant, WellFormed;
    TokenGives(s, i, Text("ptr"), e);
  }

  lemma DirectIff(s: Source, i: nat, j: nat, target: seq<byte>)
    ensures IsDirect(s, i, j, target) <==>
              Fits(s, At(i)) && Ends(AliasOperand(s, At(i)), j) && AliasOperand(s, At(i)).value.0 == Some(target)
  {
    hide TokenIs, ValueIs, RequiredToken, ReadValue, AfterAddressSpace, Constant, Decode, WellFormed;
    if IsDirect(s, i, j, target) {
      var p, x :| i < p < j && TokenIs(s, i, Text("ptr"), p) && ValueIs(s, true, p, x, j) && Names(x, target);
      PointerOperand(s, i, p);
      ValueIff(s, true, p, x, j);
      NameOfToken(ReadValue(s, At(p), true).value.0);
    }
    if Fits(s, At(i)) && Ends(AliasOperand(s, At(i)), j) && AliasOperand(s, At(i)).value.0 == Some(target) {
      var y, p := TokenRead(s, i);
      PointerOperand(s, i, p);
      var value := ReadValue(s, At(p), true).value;
      ValueIff(s, true, p, value.0.bytes, j);
      NameOfToken(value.0);
      ValueSpans(s, p, value.0.bytes, j);
    }
  }

  lemma ValueSpans(s: Source, i: nat, x: seq<byte>, j: nat)
    requires ValueIs(s, true, i, x, j)
    ensures i < j
  {
    hide TokenIs, AddressSpaceIs, RequiredToken;
    if TokenIs(s, i, x, j) {
      TokenGives(s, i, x, j);
    }
  }

  lemma ExpressionIff(s: Source, i: nat, j: nat)
    ensures IsExpression(s, i, j) <==>
              Fits(s, At(i)) && Ends(AliasOperand(s, At(i)), j) && AliasOperand(s, At(i)).value.0 == None
  {
    hide TokenIs, ConstantIs, PointerIs, RequiredToken, ReadValue, AfterAddressSpace, Constant, Decode, WellFormed;
    if IsExpression(s, i, j) {
      var x, e :|
        && TokenIs(s, i, x, e)
        && if x == Text("ptr") then PointerIs(s, e, j) else !StartsWith(x, '@' as byte) && ConstantIs(s, x, e, j);
      TokenGives(s, i, x, e);
      ExpressionRest(s, i, x, e, j);
    }
    if Fits(s, At(i)) && Ends(AliasOperand(s, At(i)), j) && AliasOperand(s, At(i)).value.0 == None {
      var x, e := TokenRead(s, i);
      ExpressionRest(s, i, x, e, j);
    }
  }

  lemma ExpressionRest(s: Source, i: nat, x: seq<byte>, e: nat, j: nat)
    requires TokenIs(s, i, x, e)
    ensures Fits(s, At(i))
    ensures (if x == Text("ptr") then PointerIs(s, e, j) else !StartsWith(x, '@' as byte) && ConstantIs(s, x, e, j))
       <==> Ends(AliasOperand(s, At(i)), j) && AliasOperand(s, At(i)).value.0 == None
  {
    hide TokenIs, ConstantIs, PointerIs, RequiredToken, ReadValue, AfterAddressSpace, Constant, Decode, WellFormed;
    TokenGives(s, i, x, e);
    if x == Text("ptr") {
      PointerOperand(s, i, e);
      PointerIff(s, e, j);
    } else {
      ConstantIff(s, RequiredToken(s, At(i)).value.0, e, j);
    }
  }

  lemma OperandIs(s: Source, i: nat, j: nat, target: Option<seq<byte>>)
    ensures IsOperand(s, i, j, target) <==>
              Fits(s, At(i)) && Ends(AliasOperand(s, At(i)), j) && AliasOperand(s, At(i)).value.0 == target
  {
    hide IsDirect, IsExpression, AliasOperand;
    if target.Some? {
      DirectIff(s, i, j, target.value);
    } else {
      ExpressionIff(s, i, j);
    }
  }

  lemma AliasSuffixIff(s: Source, i: nat, j: nat)
    ensures AliasSuffixIs(s, i, j) <==> Fits(s, At(i)) && Ends(AliasSuffixPart(s, At(i)), j)
  {
    hide TokenIs, MetadataIs, RequiredToken, OpenedGroup, WellFormed;
    if AliasSuffixIs(s, i, j) {
      var x, e :|
        && TokenIs(s, i, x, e)
        && if StartsWith(x, '!' as byte) then MetadataIs(s, e, j) else x == Text("partition") && QuotationIs(s, e, j);
      TokenGives(s, i, x, e);
      MetadataIff(s, e, j);
      FollowedByToken(s, e, j);
    }
    if Fits(s, At(i)) && Ends(AliasSuffixPart(s, At(i)), j) {
      var x, e := TokenRead(s, i);
      MetadataIff(s, e, j);
      FollowedByToken(s, e, j);
    }
  }

  lemma {:induction false} TailGivesSuffixes(s: Source, i: nat, end: nat)
    requires Fits(s, At(i)) && Ends(AliasSuffix(s, At(i)), end)
    ensures IsTail(s, i, end)
    decreases |s.bytes| - i
  {
    hide LineTokenIs, EndsLine, AliasSuffixIs, ReadToken, AliasSuffixPart, WellFormed;
    var read := ReadToken(s, At(i), true).value;
    if read.0.None? {
      LineEndIff(s, i, end);
      assert AreAliasSuffixes(s, i, Here, i);
    } else {
      var e := read.1.offset;
      LineTokenIff(s, i, Text(","), e);
      var next := AliasSuffixPart(s, At(e)).value.1.offset;
      AliasSuffixIff(s, e, next);
      TailGivesSuffixes(s, next, end);
      var marks, k :| AreAliasSuffixes(s, next, marks, k) && EndsLine(s, k, end);
      assert IsAliasSuffix(s, i, next);
      assert AreAliasSuffixes(s, i, Mark(next, marks), k);
    }
  }

  lemma {:induction false} SuffixesGiveTail(s: Source, i: nat, marks: Marks, k: nat, end: nat)
    requires AreAliasSuffixes(s, i, marks, k) && EndsLine(s, k, end)
    ensures Fits(s, At(i)) && Ends(AliasSuffix(s, At(i)), end)
    decreases marks
  {
    hide LineTokenIs, EndsLine, AliasSuffixIs, ReadToken, AliasSuffixPart, WellFormed;
    match marks
    case Here => LineEndIff(s, i, end);
    case Mark(next, rest) =>
      SuffixesGiveTail(s, next, rest, k, end);
      var e :| LineTokenIs(s, i, Text(","), e) && AliasSuffixIs(s, e, next);
      LineTokenIff(s, i, Text(","), e);
      AliasSuffixIff(s, e, next);
  }

  lemma TailIff(s: Source, i: nat, end: nat)
    ensures IsTail(s, i, end) <==> Fits(s, At(i)) && Ends(AliasSuffix(s, At(i)), end)
  {
    hide AreAliasSuffixes, EndsLine, AliasSuffix;
    if IsTail(s, i, end) {
      var marks, k :| AreAliasSuffixes(s, i, marks, k) && EndsLine(s, k, end);
      SuffixesGiveTail(s, i, marks, k, end);
    }
    if Fits(s, At(i)) && Ends(AliasSuffix(s, At(i)), end) {
      TailGivesSuffixes(s, i, end);
    }
  }

  lemma TypeIff(s: Source, token: Token, i: nat, e: nat, j: nat)
    requires Fits(s, At(i)) && RequiredToken(s, At(i)) == Ok((token, At(e)))
    ensures IsType(s, i, j) <==>
              && token.bytes != Text(",") && OpenedGroup(s, At(e), token).Ok?
              && Ends(AliasType(s, OpenedGroup(s, At(e), token).value.1), j)
  {
    hide TokenIs, OwnGroup, TypeEnds, RequiredToken, OpenedGroup, AliasType, WellFormed;
    if IsType(s, i, j) {
      var x, f, g :| TokenIs(s, i, x, f) && x != Text(",") && OwnGroup(s, x, f, g) && TypeEnds(s, g, j);
      TokenGives(s, i, x, f);
      OpenedIff(s, token, e, g);
      TypeEndsIff(s, g, j);
    }
    if OpenedGroup(s, At(e), token).Ok? {
      var x, f := TokenRead(s, i);
      var g := OpenedGroup(s, At(e), token).value.1.offset;
      OpenedIff(s, token, e, g);
      TypeEndsIff(s, g, j);
    }
  }

  lemma TypeStarts(s: Source, i: nat, j: nat)
    requires IsType(s, i, j)
    ensures Fits(s, At(i)) && RequiredToken(s, At(i)).Ok?
    ensures RequiredToken(s, At(i)).value.1 == At(RequiredToken(s, At(i)).value.1.offset)
  {
    hide TokenIs, OwnGroup, TypeEnds, RequiredToken;
    var x, e, g :| TokenIs(s, i, x, e) && x != Text(",") && OwnGroup(s, x, e, g) && TypeEnds(s, g, j);
    TokenGives(s, i, x, e);
  }

  lemma AliasIs(s: Source, i: nat, end: nat, target: Option<seq<byte>>)
    ensures Fits(s, At(i)) && Ends(AliasTarget(s, At(i)), end) && AliasTarget(s, At(i)).value.0 == target
       <==> IsAlias(s, i, end, target)
  {
    hide RequiredToken, OpenedGroup, AliasType, AliasOperand, AliasSuffix, WellFormed, IsType, IsOperand, IsTail;
    if Fits(s, At(i)) && Ends(AliasTarget(s, At(i)), end) && AliasTarget(s, At(i)).value.0 == target {
      var token, e := RequiredToken(s, At(i)).value.0, RequiredToken(s, At(i)).value.1.offset;
      var c3 := AliasType(s, OpenedGroup(s, At(e), token).value.1).value.1;
      var c4 := AliasOperand(s, c3).value.1;
      TypeIff(s, token, i, e, c3.offset);
      OperandIs(s, c3.offset, c4.offset, target);
      TailIff(s, c4.offset, end);
    }
    if IsAlias(s, i, end, target) {
      var m, o :| i < m <= o <= end && IsType(s, i, m) && IsOperand(s, m, o, target) && IsTail(s, o, end);
      TypeStarts(s, i, m);
      TypeIff(s, RequiredToken(s, At(i)).value.0, i, RequiredToken(s, At(i)).value.1.offset, m);
      OperandIs(s, m, o, target);
      TailIff(s, o, end);
    }
  }

  lemma KindIs(s: Source, x: seq<byte>, i: nat, end: nat, kind: Option<Kind>)
    requires Fits(s, At(i)) && IsKeyword(x)
    ensures Ends(AfterKeyword(s, At(i), x), end) && AfterKeyword(s, At(i), x).value.0 == kind
       <==> IsKind(s, x, i, end, kind)
  {
    hide AliasTarget, IsAlias;
    assert !IsVariableKeyword(Text("alias")) && !IsVariableKeyword(Text("ifunc")) && Text("alias") != Text("ifunc") by {
      assert |Text("alias")| == |Text("ifunc")| == 5 && |Text("global")| == 6 && |Text("constant")| == 8;
      assert Text("alias")[0] != Text("ifunc")[0];
    }
    forall target
      ensures Ends(AliasTarget(s, At(i)), end) && AliasTarget(s, At(i)).value.0 == target
         <==> IsAlias(s, i, end, target)
    {
      AliasIs(s, i, end, target);
    }
    if Ends(AliasTarget(s, At(i)), end) {
      assert IsAlias(s, i, end, AliasTarget(s, At(i)).value.0);
    }
  }

  lemma ModifierIff(s: Source, token: Token, i: nat, j: nat)
    requires Fits(s, At(i))
    ensures ModifierIs(s, token.bytes, i, j) <==> Ends(AfterModifier(s, At(i), token), j)
  {
    hide ParensAre, GroupIs, ParenGroup, Group;
    ParensIff(s, i, j);
    GroupIff(s, i, ')' as byte, j);
  }

  lemma {:induction false} HeadGivesParts(s: Source, i: nat, end: nat, kind: Option<Kind>)
    requires Fits(s, At(i)) && Ends(GlobalHead(s, At(i)), end) && GlobalHead(s, At(i)).value.0 == kind
    ensures IsHead(s, i, end, kind)
    decreases |s.bytes| - i
  {
    hide TokenIs, ModifierIs, RequiredToken, AfterKeyword, AfterModifier, IsKeyword, IsKind, WellFormed;
    var x, e := TokenRead(s, i);
    var token := RequiredToken(s, At(i)).value.0;
    if IsKeyword(x) {
      KindIs(s, x, e, end, kind);
      assert AreModifiers(s, i, Here, i);
    } else {
      var j := AfterModifier(s, At(e), token).value.1.offset;
      ModifierIff(s, token, e, j);
      HeadGivesParts(s, j, end, kind);
      var marks, k, y, w :|
        && j <= k < w <= end
        && AreModifiers(s, j, marks, k) && TokenIs(s, k, y, w) && IsKeyword(y) && IsKind(s, y, w, end, kind);
      assert IsModifier(s, i, j);
      assert AreModifiers(s, i, Mark(j, marks), k);
    }
  }

  lemma {:induction false} PartsGiveHead(s: Source, i: nat, marks: Marks, k: nat, x: seq<byte>, w: nat, end: nat,
                                         kind: Option<Kind>)
    requires AreModifiers(s, i, marks, k) && TokenIs(s, k, x, w) && IsKeyword(x) && IsKind(s, x, w, end, kind)
    ensures Fits(s, At(i)) && Ends(GlobalHead(s, At(i)), end) && GlobalHead(s, At(i)).value.0 == kind
    decreases marks
  {
    hide TokenIs, ModifierIs, RequiredToken, AfterKeyword, AfterModifier, IsKeyword, IsKind, WellFormed;
    match marks
    case Here =>
      TokenGives(s, i, x, w);
      KindIs(s, x, w, end, kind);
    case Mark(j, rest) =>
      PartsGiveHead(s, j, rest, k, x, w, end, kind);
      var y, e :| TokenIs(s, i, y, e) && !IsKeyword(y) && ModifierIs(s, y, e, j);
      TokenGives(s, i, y, e);
      ModifierIff(s, RequiredToken(s, At(i)).value.0, e, j);
  }

  /** A header from an offset is exactly these parts, so it determines its kind and its end. */
  lemma HeadIs(s: Source, i: nat, end: nat, kind: Option<Kind>)
    ensures Fits(s, At(i)) && Ends(GlobalHead(s, At(i)), end) && GlobalHead(s, At(i)).value.0 == kind
       <==> IsHead(s, i, end, kind)
  {
    hide GlobalHead, AreModifiers, TokenIs, IsKeyword, IsKind;
    if Fits(s, At(i)) && Ends(GlobalHead(s, At(i)), end) && GlobalHead(s, At(i)).value.0 == kind {
      HeadGivesParts(s, i, end, kind);
    }
    if IsHead(s, i, end, kind) {
      var marks, k, x, w :|
        && i <= k < w <= end
        && AreModifiers(s, i, marks, k) && TokenIs(s, k, x, w) && IsKeyword(x) && IsKind(s, x, w, end, kind);
      PartsGiveHead(s, i, marks, k, x, w, end, kind);
    }
  }

  /** The whole header of a line that starts with `@`. */
  lemma LineHeadIs(s: Source, i: nat, x: seq<byte>, end: nat, kind: Option<Kind>)
    ensures && Fits(s, At(i)) && Ends(LineHead(s, At(i)), end)
            && LineHead(s, At(i)).value.0.token.bytes == x && LineHead(s, At(i)).value.0.kind == kind
       <==> IsLineHead(s, i, x, end, kind)
  {
    hide TokenIs, RequiredToken, GlobalHead, IsHead, WellFormed;
    if Fits(s, At(i)) && Ends(LineHead(s, At(i)), end) && LineHead(s, At(i)).value.0.kind == kind {
      var y, n := TokenRead(s, i);
      var sign, equals := TokenRead(s, n);
      HeadIs(s, equals, end, kind);
    }
    if IsLineHead(s, i, x, end, kind) {
      var n, equals :|
        && i < n < equals <= end
        && TokenIs(s, i, x, n) && TokenIs(s, n, Text("="), equals) && IsHead(s, equals, end, kind);
      TokenGives(s, i, x, n);
      TokenGives(s, n, Text("="), equals);
      HeadIs(s, equals, end, kind);
    }
  }
}
