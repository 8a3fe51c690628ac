/**
 The header budget is the only effect of an active header. Every read has a reach that no budget
 changes: how far the bytes extend that it must consume, whether it succeeds or fails. Bytes beyond
 its reach do not matter to a read. Within the budget its outcome is that without one, and beyond it
 the error is exactly at the limit.
 */
module Budgets {
  import opened Base
  import opened Lexis
  import opened Grammar
  import opened Headers
  import Symbols
  import Utf8

  /** The cursor with a header active since `h`. */
  function Under(c: Cursor, h: nat): Cursor {
    c.(header := Some(h))
  }

  ghost predicate Unbudgeted(s: Source, c: Cursor) {
    Fits(s, c) && c.header == None
  }

  /** A header that starts at `h` is active at the cursor, and within its budget. */
  ghost predicate Covers(s: Source, c: Cursor, h: nat) {
    Unbudgeted(s, c) && Fits(s, Under(c, h))
  }

  /** The bytes that a read must consume extend to its end, if it succeeds. */
  ghost predicate Reaches<T>(c: Cursor, free: Step<T>, reach: nat) {
    c.offset <= reach && (free.Ok? ==> reach == free.value.1.offset)
  }

  /** The outcome under a budget from `h`, given the outcome without one. */
  ghost predicate Limited<T(!new)>(free: Step<T>, r: Step<T>, h: nat, reach: nat) {
    if reach > h + HEADER_LIMIT then r == Err(OverBudget(h + HEADER_LIMIT))
    else
      match free
      case Ok((value, next)) => r == Ok((value, Under(next, h)))
      case Err(e) => r == Err(e)
  }

  /** No read that reaches so far tells the inputs apart. It may look at the byte at its reach, but not take it. */
  ghost predicate Agrees(s: Source, t: Source, reach: nat) {
    s == t
    || (reach < |s.bytes| && reach < |t.bytes| && forall i :: 0 <= i <= reach ==> s.bytes[i] == t.bytes[i])
  }

  lemma CoversOn(s: Source, c: Cursor, next: Cursor)
    requires Unbudgeted(s, c) && Unbudgeted(s, next) && c.offset <= next.offset
    ensures forall h: nat :: Covers(s, c, h) && next.offset <= h + HEADER_LIMIT ==> Covers(s, next, h)
  {
  }

  // ---- Tokens ----

  lemma TakeBudget(s: Source, c: Cursor) returns (reach: nat)
    requires Unbudgeted(s, c)
    ensures Reaches(c, Take(s, c), reach)
    ensures forall h: nat :: Covers(s, c, h) ==> Limited(Take(s, c), Take(s, Under(c, h)), h, reach)
    ensures forall t :: Agrees(s, t, reach) ==> Take(t, c) == Take(s, c)
  {
    reach := if c.offset < |s.bytes| then c.offset + 1 else c.offset;
  }

  lemma {:induction false} SkipLineBudget(s: Source, c: Cursor) returns (reach: nat)
    requires Unbudgeted(s, c)
    ensures Reaches(c, SkipLine(s, c), reach)
    ensures forall h: nat :: Covers(s, c, h) ==> Limited(SkipLine(s, c), SkipLine(s, Under(c, h)), h, reach)
    ensures forall t :: Agrees(s, t, reach) ==> SkipLine(t, c) == SkipLine(s, c)
    decreases |s.bytes| - c.offset
  {
    reach := TakeBudget(s, c);
    if Take(s, c).Ok? {
      var (next, c1) := Take(s, c).value;
      if next.Some? && next.value != '\n' as byte {
        CoversOn(s, c, c1);
        reach := SkipLineBudget(s, c1);
      }
    }
  }

  lemma SkipLineAdvances(s: Source, c: Cursor)
    requires Fits(s, c) && c.offset < |s.bytes|
    ensures SkipLine(s, c).Ok? ==> SkipLine(s, c).value.1.offset > c.offset
  {
  }

  lemma {:induction false} SkipTriviaBudget(s: Source, c: Cursor, stopAtNewline: bool) returns (reach: nat)
    requires Unbudgeted(s, c)
    ensures Reaches(c, SkipTrivia(s, c, stopAtNewline), reach)
    ensures forall h: nat :: Covers(s, c, h) ==>
              Limited(SkipTrivia(s, c, stopAtNewline), SkipTrivia(s, Under(c, h), stopAtNewline), h, reach)
    ensures forall t :: Agrees(s, t, reach) ==> SkipTrivia(t, c, stopAtNewline) == SkipTrivia(s, c, stopAtNewline)
    decreases |s.bytes| - c.offset
  {
    hide SkipLine, Take;
    reach := c.offset;
    if c.offset < |s.bytes| {
      var b := s.bytes[c.offset];
      if b == ';' as byte {
        reach := SkipLineBudget(s, c);
        SkipLineAdvances(s, c);
        if SkipLine(s, c).Ok? {
          var c1 := SkipLine(s, c).value.1;
          CoversOn(s, c, c1);
          if !stopAtNewline {
            reach := SkipTriviaBudget(s, c1, stopAtNewline);
          }
        }
      } else if IsWhitespace(b) {
        reach := TakeBudget(s, c);
        if Take(s, c).Ok? {
          var (next, c1) := Take(s, c).value;
          CoversOn(s, c, c1);
          if !(stopAtNewline && b == '\n' as byte) {
            reach := SkipTriviaBudget(s, c1, stopAtNewline);
          }
        }
      }
    }
  }

  lemma HexDigitBudget(s: Source, c: Cursor) returns (reach: nat)
    requires Unbudgeted(s, c)
    ensures Reaches(c, HexDigit(s, c), reach)
    ensures forall h: nat :: Covers(s, c, h) ==> Limited(HexDigit(s, c), HexDigit(s, Under(c, h)), h, reach)
    ensures forall t :: Agrees(s, t, reach) ==> HexDigit(t, c) == HexDigit(s, c)
  {
    hide Take;
    reach := TakeBudget(s, c);
  }

  lemma EscapeBudget(s: Source, c: Cursor) returns (reach: nat)
    requires Unbudgeted(s, c)
    ensures Reaches(c, Escape(s, c), reach)
    ensures forall h: nat :: Covers(s, c, h) ==> Limited(Escape(s, c), Escape(s, Under(c, h)), h, reach)
    ensures forall t :: Agrees(s, t, reach) ==> Escape(t, c) == Escape(s, c)
  {
    hide HexDigit;
    var next := Peek(s, c);
    if next.Err? {
      reach := c.offset;
    } else if next == Ok(Some('\\' as byte)) {
      reach := TakeBudget(s, c);
    } else {
      reach := HexDigitBudget(s, c);
      if HexDigit(s, c).Ok? {
        var c1 := HexDigit(s, c).value.1;
        CoversOn(s, c, c1);
        reach := HexDigitBudget(s, c1);
      }
    }
  }

  lemma {:induction false} QuotedBudget(s: Source, c: Cursor) returns (reach: nat)
    requires Unbudgeted(s, c)
    ensures Reaches(c, Quoted(s, c), reach)
    ensures forall h: nat :: Covers(s, c, h) ==> Limited(Quoted(s, c), Quoted(s, Under(c, h)), h, reach)
    ensures forall t :: Agrees(s, t, reach) ==> Quoted(t, c) == Quoted(s, c)
    decreases |s.bytes| - c.offset
  {
    hide Escape, Take;
    reach := TakeBudget(s, c);
    if Take(s, c).Ok? && Take(s, c).value.0.Some? {
      var (next, c1) := Take(s, c).value;
      CoversOn(s, c, c1);
      if next.value == '\\' as byte {
        reach := EscapeBudget(s, c1);
        if Escape(s, c1).Ok? {
          var c2 := Escape(s, c1).value.1;
          CoversOn(s, c1, c2);
          reach := QuotedBudget(s, c2);
        }
      } else if next.value != '"' as byte && !IsLineBreak(next.value) {
        reach := QuotedBudget(s, c1);
      }
    }
  }

  lemma {:induction false} WordBudget(s: Source, c: Cursor) returns (reach: nat)
    requires Unbudgeted(s, c)
    ensures Reaches(c, Word(s, c), reach)
    ensures forall h: nat :: Covers(s, c, h) ==> Limited(Word(s, c), Word(s, Under(c, h)), h, reach)
    ensures forall t :: Agrees(s, t, reach) ==> Word(t, c) == Word(s, c)
    decreases |s.bytes| - c.offset
  {
    reach := c.offset;
    if c.offset < |s.bytes| && IsWord(s.bytes[c.offset]) {
      reach := TakeBudget(s, c);
      if Take(s, c).Ok? {
        var c1 := Take(s, c).value.1;
        CoversOn(s, c, c1);
        reach := WordBudget(s, c1);
      }
    }
  }

  lemma CompleteTokenBudget(s: Source, c: Cursor, first: byte) returns (reach: nat)
    requires Unbudgeted(s, c) && c.offset > 0 && s.bytes[c.offset - 1] == first
    ensures Reaches(c, CompleteToken(s, c, first), reach)
    ensures forall h: nat :: Covers(s, c, h) ==>
              Limited(CompleteToken(s, c, first), CompleteToken(s, Under(c, h), first), h, reach)
    ensures forall t :: Agrees(s, t, reach) ==> CompleteToken(t, c, first) == CompleteToken(s, c, first)
  {
    hide Quoted, Word, WellFormed, Escaped, Take;
    if first == '"' as byte {
      reach := QuotedBudget(s, c);
    } else if IsSigil(first) && Peek(s, c) == Ok(Some('"' as byte)) {
      reach := TakeBudget(s, c);
      if Take(s, c).Ok? {
        var c1 := Take(s, c).value.1;
        CoversOn(s, c, c1);
        reach := QuotedBudget(s, c1);
      }
    } else if IsSigil(first) && Peek(s, c).Err? {
      reach := c.offset;
    } else if !IsSigil(first) && !IsWord(first) && first != '!' as byte {
      reach := c.offset;
    } else {
      reach := WordBudget(s, c);
    }
  }

  lemma ReadTokenBudget(s: Source, c: Cursor, stopAtNewline: bool) returns (reach: nat)
    requires Unbudgeted(s, c)
    ensures Reaches(c, ReadToken(s, c, stopAtNewline), reach)
    ensures forall h: nat :: Covers(s, c, h) ==>
              Limited(ReadToken(s, c, stopAtNewline), ReadToken(s, Under(c, h), stopAtNewline), h, reach)
    ensures forall t :: Agrees(s, t, reach) ==> ReadToken(t, c, stopAtNewline) == ReadToken(s, c, stopAtNewline)
  {
    hide SkipTrivia, CompleteToken, WellFormed, Take;
    reach := SkipTriviaBudget(s, c, stopAtNewline);
    if SkipTrivia(s, c, stopAtNewline).Ok? && !SkipTrivia(s, c, stopAtNewline).value.0 {
      var c1 := SkipTrivia(s, c, stopAtNewline).value.1;
      CoversOn(s, c, c1);
      reach := TakeBudget(s, c1);
      if Take(s, c1).Ok? && Take(s, c1).value.0.Some? {
        var (first, c2) := Take(s, c1).value;
        CoversOn(s, c1, c2);
        TakenByte(s, c1);
        reach := CompleteTokenBudget(s, c2, first.value);
        if CompleteToken(s, c2, first.value).Ok? {
          SameToken(s, c1.offset, reach);
        }
      }
    }
  }

  lemma SameToken(s: Source, i: nat, j: nat)
    requires i <= j <= |s.bytes|
    ensures forall t :: Agrees(s, t, j) ==> j <= |t.bytes| && t.bytes[i..j] == s.bytes[i..j]
  {
  }

  lemma TakenByte(s: Source, c: Cursor)
    requires Fits(s, c) && Take(s, c).Ok? && Take(s, c).value.0.Some?
    ensures c.offset < |s.bytes| && Take(s, c).value.0 == Some(s.bytes[c.offset])
    ensures Take(s, c).value.1.offset == c.offset + 1
  {
  }

  lemma RequiredTokenBudget(s: Source, c: Cursor) returns (reach: nat)
    requires Unbudgeted(s, c)
    ensures Reaches(c, RequiredToken(s, c), reach)
    ensures forall h: nat :: Covers(s, c, h) ==>
              Limited(RequiredToken(s, c), RequiredToken(s, Under(c, h)), h, reach)
    ensures forall t :: Agrees(s, t, reach) ==> RequiredToken(t, c) == RequiredToken(s, c)
  {
    hide ReadToken, WellFormed;
    reach := ReadTokenBudget(s, c, false);
  }

  lemma ExpectBudget(s: Source, c: Cursor, expected: seq<byte>) returns (reach: nat)
    requires Unbudgeted(s, c)
    ensures Reaches(c, Expect(s, c, expected), reach)
    ensures forall h: nat :: Covers(s, c, h) ==>
              Limited(Expect(s, c, expected), Expect(s, Under(c, h), expected), h, reach)
    ensures forall t :: Agrees(s, t, reach) ==> Expect(t, c, expected) == Expect(s, c, expected)
  {
    hide RequiredToken, WellFormed;
    reach := RequiredTokenBudget(s, c);
  }

  /** A delimiter group is read as without a budget if it stays within it, and otherwise fails exactly at the limit. */
  lemma {:induction false} GroupBudget(s: Source, c: Cursor, closing: seq<byte>) returns (reach: nat)
    requires Unbudgeted(s, c)
    ensures Reaches(c, Group(s, c, closing), reach)
    ensures forall h: nat :: Covers(s, c, h) ==>
              Limited(Group(s, c, closing), Group(s, Under(c, h), closing), h, reach)
    ensures forall t :: Agrees(s, t, reach) ==> Group(t, c, closing) == Group(s, c, closing)
    decreases |s.bytes| - c.offset
  {
    hide RequiredToken, WellFormed, AfterToken, Mismatches;
    reach := c.offset;
    if closing != [] {
      reach := RequiredTokenBudget(s, c);
      if RequiredToken(s, c).Ok? {
        var (token, c1) := RequiredToken(s, c).value;
        if !Mismatches(closing, token.bytes) {
          CoversOn(s, c, c1);
          reach := GroupBudget(s, c1, AfterToken(closing, token.bytes));
        }
      }
    }
  }

  // ---- Headers ----

  lemma OpenedGroupBudget(s: Source, c: Cursor, token: Token) returns (reach: nat)
    requires Unbudgeted(s, c)
    ensures Reaches(c, OpenedGroup(s, c, token), reach)
    ensures forall h: nat :: Covers(s, c, h) ==>
              Limited(OpenedGroup(s, c, token), OpenedGroup(s, Under(c, h), token), h, reach)
    ensures forall t :: Agrees(s, t, reach) ==> OpenedGroup(t, c, token) == OpenedGroup(s, c, token)
  {
    hide Group;
    reach := c.offset;
    if |token.bytes| == 1 && IsOpening(token.bytes[0]) {
      reach := GroupBudget(s, c, [MatchingClose(token.bytes[0]).value]);
    }
  }

  lemma ParenGroupBudget(s: Source, c: Cursor) returns (reach: nat)
    requires Unbudgeted(s, c)
    ensures Reaches(c, ParenGroup(s, c), reach)
    ensures forall h: nat :: Covers(s, c, h) ==> Limited(ParenGroup(s, c), ParenGroup(s, Under(c, h)), h, reach)
    ensures forall t :: Agrees(s, t, reach) ==> ParenGroup(t, c) == ParenGroup(s, c)
  {
    hide Expect, Group;
    reach := ExpectBudget(s, c, Text("("));
    if Expect(s, c, Text("(")).Ok? {
      var c1 := Expect(s, c, Text("(")).value.1;
      CoversOn(s, c, c1);
      reach := GroupBudget(s, c1, [')' as byte]);
    }
  }

  lemma {:induction false} SkipFlagsBudget(s: Source, c: Cursor, token: Token) returns (reach: nat)
    requires Unbudgeted(s, c)
    ensures Reaches(c, SkipFlags(s, c, token), reach)
    ensures forall h: nat :: Covers(s, c, h) ==>
              Limited(SkipFlags(s, c, token), SkipFlags(s, Under(c, h), token), h, reach)
    ensures forall t :: Agrees(s, t, reach) ==> SkipFlags(t, c, token) == SkipFlags(s, c, token)
    decreases |s.bytes| - c.offset
  {
    hide RequiredToken, WellFormed, IsPointerFlag;
    reach := c.offset;
    if IsPointerFlag(token.bytes) {
      reach := RequiredTokenBudget(s, c);
      if RequiredToken(s, c).Ok? {
        var (next, c1) := RequiredToken(s, c).value;
        CoversOn(s, c, c1);
        reach := SkipFlagsBudget(s, c1, next);
      }
    }
  }

  lemma ConstantOperandsBudget(s: Source, c: Cursor, flags: bool) returns (reach: nat)
    requires Unbudgeted(s, c)
    ensures Reaches(c, ConstantOperands(s, c, flags), reach)
    ensures forall h: nat :: Covers(s, c, h) ==>
              Limited(ConstantOperands(s, c, flags), ConstantOperands(s, Under(c, h), flags), h, reach)
    ensures forall t :: Agrees(s, t, reach) ==> ConstantOperands(t, c, flags) == ConstantOperands(s, c, flags)
  {
    hide RequiredToken, SkipFlags, Group, WellFormed;
    reach := RequiredTokenBudget(s, c);
    if RequiredToken(s, c).Ok? {
      var (first, c1) := RequiredToken(s, c).value;
      CoversOn(s, c, c1);
      if flags {
        reach := SkipFlagsBudget(s, c1, first);
        if SkipFlags(s, c1, first).Ok? {
          var (next, c2) := SkipFlags(s, c1, first).value;
          CoversOn(s, c1, c2);
          if next.bytes == Text("(") {
            reach := GroupBudget(s, c2, [')' as byte]);
          }
        }
      } else if first.bytes == Text("(") {
        reach := GroupBudget(s, c1, [')' as byte]);
      }
    }
  }

  lemma ConstantBudget(s: Source, c: Cursor, token: Token) returns (reach: nat)
    requires Unbudgeted(s, c) && WellFormed(token.bytes)
    ensures Reaches(c, Constant(s, c, token), reach)
    ensures forall h: nat :: Covers(s, c, h) ==>
              Limited(Constant(s, c, token), Constant(s, Under(c, h), token), h, reach)
    ensures forall t :: Agrees(s, t, reach) ==> Constant(t, c, token) == Constant(s, c, token)
  {
    hide RequiredToken, ConstantOperands, Group, WellFormed, Symbols.Decode, IsSimpleConstant, IsConstantOpcode;
    var x := token.bytes;
    if |x| == 1 && IsOpening(x[0]) {
      reach := GroupBudget(s, c, [MatchingClose(x[0]).value]);
    } else if StartsWith(x, '@' as byte) {
      reach := c.offset;
    } else if x == Text("dso_local_equivalent") || x == Text("no_cfi") || x == Text("c") {
      reach := RequiredTokenBudget(s, c);
    } else if !IsSimpleConstant(x) && IsConstantOpcode(x) {
      reach := ConstantOperandsBudget(s, c, x == Text("getelementptr"));
    } else {
      reach := c.offset;
    }
  }

  lemma AfterAddressSpaceBudget(s: Source, c: Cursor, token: Token) returns (reach: nat)
    requires Unbudgeted(s, c) && WellFormed(token.bytes)
    ensures Reaches(c, AfterAddressSpace(s, c, token), reach)
    ensures forall h: nat :: Covers(s, c, h) ==>
              Limited(AfterAddressSpace(s, c, token), AfterAddressSpace(s, Under(c, h), token), h, reach)
    ensures forall t :: Agrees(s, t, reach) ==> AfterAddressSpace(t, c, token) == AfterAddressSpace(s, c, token)
  {
    hide RequiredToken, ParenGroup, WellFormed;
    reach := c.offset;
    if token.bytes == Text("addrspace") {
      reach := ParenGroupBudget(s, c);
      if ParenGroup(s, c).Ok? {
        var c1 := ParenGroup(s, c).value.1;
        CoversOn(s, c, c1);
        reach := RequiredTokenBudget(s, c1);
      }
    }
  }

  lemma TypedValueBudget(s: Source, c: Cursor, isPointer: bool) returns (reach: nat)
    requires Unbudgeted(s, c)
    ensures Reaches(c, TypedValue(s, c, isPointer), reach)
    ensures forall h: nat :: Covers(s, c, h) ==>
              Limited(TypedValue(s, c, isPointer), TypedValue(s, Under(c, h), isPointer), h, reach)
    ensures forall t :: Agrees(s, t, reach) ==> TypedValue(t, c, isPointer) == TypedValue(s, c, isPointer)
  {
    hide RequiredToken, AfterAddressSpace, Constant, WellFormed;
    reach := RequiredTokenBudget(s, c);
    if RequiredToken(s, c).Ok? {
      var (value, c1) := RequiredToken(s, c).value;
      CoversOn(s, c, c1);
      if isPointer {
        reach := AfterAddressSpaceBudget(s, c1, value);
        if AfterAddressSpace(s, c1, value).Ok? {
          var (operand, c2) := AfterAddressSpace(s, c1, value).value;
          CoversOn(s, c1, c2);
          reach := ConstantBudget(s, c2, operand);
        }
      } else {
        reach := ConstantBudget(s, c1, value);
      }
    }
  }

  lemma TypedConstantBudget(s: Source, c: Cursor) returns (reach: nat)
    requires Unbudgeted(s, c)
    ensures Reaches(c, TypedConstant(s, c), reach)
    ensures forall h: nat :: Covers(s, c, h) ==>
              Limited(TypedConstant(s, c), TypedConstant(s, Under(c, h)), h, reach)
    ensures forall t :: Agrees(s, t, reach) ==> TypedConstant(t, c) == TypedConstant(s, c)
  {
    hide RequiredToken, OpenedGroup, TypedValue, WellFormed;
    reach := RequiredTokenBudget(s, c);
    if RequiredToken(s, c).Ok? {
      var (ty, c1) := RequiredToken(s, c).value;
      CoversOn(s, c, c1);
      reach := OpenedGroupBudget(s, c1, ty);
      if OpenedGroup(s, c1, ty).Ok? {
        var c2 := OpenedGroup(s, c1, ty).value.1;
        CoversOn(s, c1, c2);
        reach := TypedValueBudget(s, c2, ty.bytes == Text("ptr"));
      }
    }
  }

  lemma {:induction false} FunctionNameBudget(s: Source, c: Cursor) returns (reach: nat)
    requires Unbudgeted(s, c)
    ensures Reaches(c, FunctionName(s, c), reach)
    ensures forall h: nat :: Covers(s, c, h) ==> Limited(FunctionName(s, c), FunctionName(s, Under(c, h)), h, reach)
    ensures forall t :: Agrees(s, t, reach) ==> FunctionName(t, c) == FunctionName(s, c)
    decreases |s.bytes| - c.offset
  {
    hide RequiredToken, OpenedGroup, WellFormed, Symbols.Decode, EndsHeader;
    reach := RequiredTokenBudget(s, c);
    if RequiredToken(s, c).Ok? {
      var (token, c1) := RequiredToken(s, c).value;
      CoversOn(s, c, c1);
      if !StartsWith(token.bytes, '@' as byte) && !EndsHeader(token.bytes) {
        reach := OpenedGroupBudget(s, c1, token);
        if OpenedGroup(s, c1, token).Ok? {
          var c2 := OpenedGroup(s, c1, token).value.1;
          CoversOn(s, c1, c2);
          reach := FunctionNameBudget(s, c2);
        }
      }
    }
  }

  lemma SuffixPartBudget(s: Source, c: Cursor, token: Token) returns (reach: nat)
    requires Unbudgeted(s, c)
    ensures Reaches(c, SuffixPart(s, c, token), reach)
    ensures forall h: nat :: Covers(s, c, h) ==>
              Limited(SuffixPart(s, c, token), SuffixPart(s, Under(c, h), token), h, reach)
    ensures forall t :: Agrees(s, t, reach) ==> SuffixPart(t, c, token) == SuffixPart(s, c, token)
  {
    hide RequiredToken, OpenedGroup, TypedConstant, WellFormed, EndsHeader;
    var x := token.bytes;
    if x == Text("prefix") || x == Text("prologue") || x == Text("personality") {
      reach := TypedConstantBudget(s, c);
    } else if x == Text("!") {
      reach := RequiredTokenBudget(s, c);
      if RequiredToken(s, c).Ok? {
        var (metadata, c1) := RequiredToken(s, c).value;
        CoversOn(s, c, c1);
        reach := OpenedGroupBudget(s, c1, metadata);
      }
    } else if EndsHeader(x) {
      reach := c.offset;
    } else {
      reach := OpenedGroupBudget(s, c, token);
    }
  }

  lemma {:induction false} FunctionSuffixBudget(s: Source, c: Cursor) returns (reach: nat)
    requires Unbudgeted(s, c)
    ensures Reaches(c, FunctionSuffix(s, c), reach)
    ensures forall h: nat :: Covers(s, c, h) ==>
              Limited(FunctionSuffix(s, c), FunctionSuffix(s, Under(c, h)), h, reach)
    ensures forall t :: Agrees(s, t, reach) ==> FunctionSuffix(t, c) == FunctionSuffix(s, c)
    decreases |s.bytes| - c.offset
  {
    hide RequiredToken, SuffixPart, WellFormed;
    reach := RequiredTokenBudget(s, c);
    if RequiredToken(s, c).Ok? {
      var (token, c1) := RequiredToken(s, c).value;
      CoversOn(s, c, c1);
      if token.bytes != Text("{") {
        reach := SuffixPartBudget(s, c1, token);
        if SuffixPart(s, c1, token).Ok? {
          var c2 := SuffixPart(s, c1, token).value.1;
          CoversOn(s, c1, c2);
          reach := FunctionSuffixBudget(s, c2);
        }
      }
    }
  }

  /** The same for a whole function header. */
  lemma FunctionHeaderBudget(s: Source, c: Cursor) returns (reach: nat)
    requires Unbudgeted(s, c)
    ensures Reaches(c, FunctionHeader(s, c), reach)
    ensures forall h: nat :: Covers(s, c, h) ==>
              Limited(FunctionHeader(s, c), FunctionHeader(s, Under(c, h)), h, reach)
    ensures forall t :: Agrees(s, t, reach) ==> FunctionHeader(t, c) == FunctionHeader(s, c)
  {
    hide FunctionName, ParenGroup, FunctionSuffix;
    reach := FunctionNameBudget(s, c);
    if FunctionName(s, c).Ok? {
      var c1 := FunctionName(s, c).value.1;
      CoversOn(s, c, c1);
      reach := ParenGroupBudget(s, c1);
      if ParenGroup(s, c1).Ok? {
        var c2 := ParenGroup(s, c1).value.1;
        CoversOn(s, c1, c2);
        reach := FunctionSuffixBudget(s, c2);
      }
    }
  }

  lemma {:induction false} AliasTypeBudget(s: Source, c: Cursor) returns (reach: nat)
    requires Unbudgeted(s, c)
    ensures Reaches(c, AliasType(s, c), reach)
    ensures forall h: nat :: Covers(s, c, h) ==> Limited(AliasType(s, c), AliasType(s, Under(c, h)), h, reach)
    ensures forall t :: Agrees(s, t, reach) ==> AliasType(t, c) == AliasType(s, c)
    decreases |s.bytes| - c.offset
  {
    hide RequiredToken, OpenedGroup, WellFormed;
    reach := RequiredTokenBudget(s, c);
    if RequiredToken(s, c).Ok? {
      var (token, c1) := RequiredToken(s, c).value;
      CoversOn(s, c, c1);
      var x := token.bytes;
      var stops := x == Text("=") || x == Text("define") || x == Text("declare") || StartsWith(x, '@' as byte);
      if x != Text(",") && !stops {
        reach := OpenedGroupBudget(s, c1, token);
        if OpenedGroup(s, c1, token).Ok? {
          var c2 := OpenedGroup(s, c1, token).value.1;
          CoversOn(s, c1, c2);
          reach := AliasTypeBudget(s, c2);
        }
      }
    }
  }

  lemma TypedOperandBudget(s: Source, c: Cursor, operand: Token) returns (reach: nat)
    requires Unbudgeted(s, c) && WellFormed(operand.bytes)
    ensures Reaches(c, TypedOperand(s, c, operand), reach)
    ensures forall h: nat :: Covers(s, c, h) ==>
              Limited(TypedOperand(s, c, operand), TypedOperand(s, Under(c, h), operand), h, reach)
    ensures forall t :: Agrees(s, t, reach) ==> TypedOperand(t, c, operand) == TypedOperand(s, c, operand)
  {
    hide Constant, WellFormed, Symbols.Decode;
    if StartsWith(operand.bytes, '@' as byte) {
      reach := c.offset;
    } else {
      reach := ConstantBudget(s, c, operand);
    }
  }

  lemma AliasOperandBudget(s: Source, c: Cursor) returns (reach: nat)
    requires Unbudgeted(s, c)
    ensures Reaches(c, AliasOperand(s, c), reach)
    ensures forall h: nat :: Covers(s, c, h) ==> Limited(AliasOperand(s, c), AliasOperand(s, Under(c, h)), h, reach)
    ensures forall t :: Agrees(s, t, reach) ==> AliasOperand(t, c) == AliasOperand(s, c)
  {
    hide RequiredToken, AfterAddressSpace, TypedOperand, Constant, WellFormed;
    reach := RequiredTokenBudget(s, c);
    if RequiredToken(s, c).Ok? {
      var (first, c1) := RequiredToken(s, c).value;
      CoversOn(s, c, c1);
      if first.bytes == Text("ptr") {
        reach := RequiredTokenBudget(s, c1);
        if RequiredToken(s, c1).Ok? {
          var (second, c2) := RequiredToken(s, c1).value;
          CoversOn(s, c1, c2);
          reach := AfterAddressSpaceBudget(s, c2, second);
          if AfterAddressSpace(s, c2, second).Ok? {
            var (operand, c3) := AfterAddressSpace(s, c2, second).value;
            CoversOn(s, c2, c3);
            reach := TypedOperandBudget(s, c3, operand);
          }
        }
      } else if !StartsWith(first.bytes, '@' as byte) {
        reach := ConstantBudget(s, c1, first);
      }
    }
  }

  lemma AliasSuffixPartBudget(s: Source, c: Cursor) returns (reach: nat)
    requires Unbudgeted(s, c)
    ensures Reaches(c, AliasSuffixPart(s, c), reach)
    ensures forall h: nat :: Covers(s, c, h) ==>
              Limited(AliasSuffixPart(s, c), AliasSuffixPart(s, Under(c, h)), h, reach)
    ensures forall t :: Agrees(s, t, reach) ==> AliasSuffixPart(t, c) == AliasSuffixPart(s, c)
  {
    hide RequiredToken, OpenedGroup, WellFormed;
    reach := RequiredTokenBudget(s, c);
    if RequiredToken(s, c).Ok? {
      var (suffix, c1) := RequiredToken(s, c).value;
      CoversOn(s, c, c1);
      if StartsWith(suffix.bytes, '!' as byte) || suffix.bytes == Text("partition") {
        reach := RequiredTokenBudget(s, c1);
        if RequiredToken(s, c1).Ok? && StartsWith(suffix.bytes, '!' as byte) {
          var (metadata, c2) := RequiredToken(s, c1).value;
          CoversOn(s, c1, c2);
          reach := OpenedGroupBudget(s, c2, metadata);
        }
      }
    }
  }

  lemma {:induction false} AliasSuffixBudget(s: Source, c: Cursor) returns (reach: nat)
    requires Unbudgeted(s, c)
    ensures Reaches(c, AliasSuffix(s, c), reach)
    ensures forall h: nat :: Covers(s, c, h) ==> Limited(AliasSuffix(s, c), AliasSuffix(s, Under(c, h)), h, reach)
    ensures forall t :: Agrees(s, t, reach) ==> AliasSuffix(t, c) == AliasSuffix(s, c)
    decreases |s.bytes| - c.offset
  {
    hide ReadToken, AliasSuffixPart, WellFormed;
    reach := ReadTokenBudget(s, c, true);
    if ReadToken(s, c, true).Ok? {
      var (token, c1) := ReadToken(s, c, true).value;
      CoversOn(s, c, c1);
      if token.Some? && token.value.bytes == Text(",") {
        reach := AliasSuffixPartBudget(s, c1);
        if AliasSuffixPart(s, c1).Ok? {
          var c2 := AliasSuffixPart(s, c1).value.1;
          CoversOn(s, c1, c2);
          reach := AliasSuffixBudget(s, c2);
        }
      }
    }
  }

  /** The same for a whole alias or ifunc. */
  lemma AliasTargetBudget(s: Source, c: Cursor) returns (reach: nat)
    requires Unbudgeted(s, c)
    ensures Reaches(c, AliasTarget(s, c), reach)
    ensures forall h: nat :: Covers(s, c, h) ==> Limited(AliasTarget(s, c), AliasTarget(s, Under(c, h)), h, reach)
    ensures forall t :: Agrees(s, t, reach) ==> AliasTarget(t, c) == AliasTarget(s, c)
  {
    hide RequiredToken, OpenedGroup, AliasType, AliasOperand, AliasSuffix, WellFormed;
    reach := RequiredTokenBudget(s, c);
    if RequiredToken(s, c).Ok? {
      var (first, c1) := RequiredToken(s, c).value;
      CoversOn(s, c, c1);
      if first.bytes != Text(",") {
        reach := OpenedGroupBudget(s, c1, first);
        if OpenedGroup(s, c1, first).Ok? {
          var c2 := OpenedGroup(s, c1, first).value.1;
          CoversOn(s, c1, c2);
          reach := AliasTypeBudget(s, c2);
          if AliasType(s, c2).Ok? {
            var c3 := AliasType(s, c2).value.1;
            CoversOn(s, c2, c3);
            reach := AliasOperandBudget(s, c3);
            if AliasOperand(s, c3).Ok? {
              var c4 := AliasOperand(s, c3).value.1;
              CoversOn(s, c3, c4);
              reach := AliasSuffixBudget(s, c4);
            }
          }
        }
      }
    }
  }

  lemma AfterKeywordBudget(s: Source, c: Cursor, x: seq<byte>) returns (reach: nat)
    requires Unbudgeted(s, c) && IsKeyword(x)
    ensures Reaches(c, AfterKeyword(s, c, x), reach)
    ensures forall h: nat :: Covers(s, c, h) ==>
              Limited(AfterKeyword(s, c, x), AfterKeyword(s, Under(c, h), x), h, reach)
    ensures forall t :: Agrees(s, t, reach) ==> AfterKeyword(t, c, x) == AfterKeyword(s, c, x)
  {
    hide AliasTarget;
    reach := c.offset;
    if !IsVariableKeyword(x) {
      reach := AliasTargetBudget(s, c);
    }
  }

  lemma AfterModifierBudget(s: Source, c: Cursor, token: Token) returns (reach: nat)
    requires Unbudgeted(s, c)
    ensures Reaches(c, AfterModifier(s, c, token), reach)
    ensures forall h: nat :: Covers(s, c, h) ==>
              Limited(AfterModifier(s, c, token), AfterModifier(s, Under(c, h), token), h, reach)
    ensures forall t :: Agrees(s, t, reach) ==> AfterModifier(t, c, token) == AfterModifier(s, c, token)
  {
    hide ParenGroup, Group;
    reach := c.offset;
    if token.bytes !in MODIFIERS {
      if token.bytes == Text("addrspace") {
        reach := ParenGroupBudget(s, c);
      } else if token.bytes == Text("(") {
        reach := GroupBudget(s, c, [')' as byte]);
      }
    }
  }

  lemma {:induction false} GlobalHeadBudget(s: Source, c: Cursor) returns (reach: nat)
    requires Unbudgeted(s, c)
    ensures Reaches(c, GlobalHead(s, c), reach)
    ensures forall h: nat :: Covers(s, c, h) ==> Limited(GlobalHead(s, c), GlobalHead(s, Under(c, h)), h, reach)
    ensures forall t :: Agrees(s, t, reach) ==> GlobalHead(t, c) == GlobalHead(s, c)
    decreases |s.bytes| - c.offset
  {
    hide RequiredToken, AfterKeyword, AfterModifier, IsKeyword, WellFormed;
    reach := RequiredTokenBudget(s, c);
    if RequiredToken(s, c).Ok? {
      var (token, c1) := RequiredToken(s, c).value;
      CoversOn(s, c, c1);
      if IsKeyword(token.bytes) {
        reach := AfterKeywordBudget(s, c1, token.bytes);
      } else {
        reach := AfterModifierBudget(s, c1, token);
        if AfterModifier(s, c1, token).Ok? {
          var c2 := AfterModifier(s, c1, token).value.1;
          CoversOn(s, c1, c2);
          reach := GlobalHeadBudget(s, c2);
        }
      }
    }
  }

  /** The same for the header of a line that starts with `@`: symbol, equals sign, modifiers, keyword, and alias. */
  lemma LineHeadBudget(s: Source, c: Cursor) returns (reach: nat)
    requires Unbudgeted(s, c)
    ensures Reaches(c, LineHead(s, c), reach)
    ensures forall h: nat :: Covers(s, c, h) ==> Limited(LineHead(s, c), LineHead(s, Under(c, h)), h, reach)
    ensures forall t :: Agrees(s, t, reach) ==> LineHead(t, c) == LineHead(s, c)
  {
    hide RequiredToken, Expect, GlobalHead, WellFormed;
    reach := RequiredTokenBudget(s, c);
    if RequiredToken(s, c).Ok? {
      var c1 := RequiredToken(s, c).value.1;
      CoversOn(s, c, c1);
      reach := ExpectBudget(s, c1, Text("="));
      if Expect(s, c1, Text("=")).Ok? {
        var c2 := Expect(s, c1, Text("=")).value.1;
        CoversOn(s, c1, c2);
        reach := GlobalHeadBudget(s, c2);
      }
    }
  }

  // ---- Records ----

  /**
   A line that starts with `@` is over budget exactly when its header is, from the line's first byte.
   The rest of a variable's line may have any length, and a record ends where its header does.
   */
  lemma GlobalItemBudget(s: Source, c: Cursor) returns (reach: nat)
    requires Unbudgeted(s, c)
    ensures Reaches(c, LineHead(s, c), reach)
    ensures forall h: nat :: Covers(s, c, h) ==> Limited(LineHead(s, c), LineHead(s, Under(c, h)), h, reach)
    ensures forall t :: Agrees(s, t, reach) ==> LineHead(t, c) == LineHead(s, c)
    ensures GlobalItem(s, c) == Err(OverBudget(c.offset + HEADER_LIMIT)) <==> reach > c.offset + HEADER_LIMIT
    ensures LineHead(s, c).Ok? ==> WellFormed(LineHead(s, c).value.0.token.bytes)
    ensures reach <= c.offset + HEADER_LIMIT ==> GlobalItem(s, c) == ItemOf(s, c.offset, LineHead(s, c))
  {
    hide LineHead, SkipLine, WellFormed, GlobalItem, Symbols.IsNamed, Symbols.NameOf, Utf8.IsUtf8;
    reach := LineHeadBudget(s, c);
    assert Covers(s, c, c.offset);
    ItemIsHeadThenRest(s, c);
    if LineHead(s, c).Ok? {
      HeadIsWellFormed(s, c);
    }
  }

  /**
   A function is over budget exactly when its header is, from its keyword's first byte. Its body may
   have any length, and a record ends where its body does.
   */
  lemma FunctionItemBudget(s: Source, start: nat, c: Cursor) returns (reach: nat)
    requires Unbudgeted(s, c) && start < c.offset <= start + 6
    ensures Reaches(c, FunctionHeader(s, c), reach)
    ensures forall h: nat :: Covers(s, c, h) ==>
              Limited(FunctionHeader(s, c), FunctionHeader(s, Under(c, h)), h, reach)
    ensures forall t :: Agrees(s, t, reach) ==> FunctionHeader(t, c) == FunctionHeader(s, c)
    ensures FunctionItem(s, start, c) == Err(OverBudget(start + HEADER_LIMIT)) <==> reach > start + HEADER_LIMIT
    ensures reach <= start + HEADER_LIMIT ==> FunctionItem(s, start, c) == FunctionOf(s, start, FunctionHeader(s, c))
  {
    hide FunctionHeader, Body;
    reach := FunctionHeaderBudget(s, c);
    assert Covers(s, c, start);
  }
}
