/** Where an index's names come from: the place in its record at which every reported name is spelled. */
module Naming {
  import opened Base
  import opened IndexRecords
  import opened Lexis
  import opened Symbols
  import opened Grammar
  import opened Headers
  import opened Parts
  import opened Tokens
  import Bodies
  import Ranges

  /** The bytes from `i` to `j` are one well-formed global token that decodes to the name. */
  ghost predicate SpelledAt(s: Source, i: nat, j: nat, name: seq<byte>) {
    && i < j <= |s.bytes| && s.bytes[i] == '@' as byte
    && WellFormed(s.bytes[i..j]) && Decode(Token(s.bytes[i..j], i)) == Ok(name)
  }

  /** Between the keyword and the brace before its body, a function's text spells its symbol. */
  ghost predicate FunctionIsNamed(s: Source, d: Definition) {
    exists i: nat, j, body: nat, ps ::
      && d.start + 6 <= i < j < body <= |s.bytes| && SpelledAt(s, i, j, d.symbol)
      && s.bytes[body - 1] == '{' as byte && Bodies.IsBody(s, body, d.End(), ps)
  }

  /** A direct alias's target is spelled after its symbol and the comma that ends its type. */
  ghost predicate TargetIsNamed(s: Source, from: nat, end: nat, target: seq<byte>) {
    exists m, i, j ::
      from <= m < i < j <= end && m < |s.bytes| && s.bytes[m] == ',' as byte && SpelledAt(s, i, j, target)
  }

  /** An alias's or ifunc's text starts with its symbol. */
  ghost predicate GlobalIsNamed(s: Source, d: Definition) {
    exists j: nat ::
      && d.start < j <= d.End() && SpelledAt(s, d.start, j, d.symbol)
      && (d.kind.DirectAlias? ==> TargetIsNamed(s, j, d.End(), d.kind.target))
  }

  ghost predicate IsNamedRecord(s: Source, d: Definition) {
    if d.kind.Function? then FunctionIsNamed(s, d) else GlobalIsNamed(s, d)
  }

  /** A name's token is spelled after what separates it from what was before. */
  lemma NameIsSpelled(s: Source, i: nat, j: nat, name: seq<byte>) returns (from: nat)
    requires NameIs(s, i, j, name)
    ensures i <= from < j && SpelledAt(s, from, j, name)
    ensures i < |s.bytes| && s.bytes[i] == '@' as byte ==> from == i
  {
    hide Decode, WellFormed, IsQuoted, IsRun;
    var x :| TokenIs(s, i, x, j) && Names(x, name);
    var t, k: nat :| IsTrivia(s, i, t, k) && IsText(s, k, j) && x == s.bytes[k..j];
    TriviaIsSkipped(s, i, t, k);
    NameOfToken(Token(x, k));
    assert s.bytes[k] == x[0];
    from := k;
  }

  /** The last byte of a one-byte token is that token. */
  lemma LastByteIs(s: Source, i: nat, b: byte, j: nat)
    requires TokenIs(s, i, [b], j)
    ensures i < j <= |s.bytes| && s.bytes[j - 1] == b
  {
    hide IsQuoted, IsRun;
    var t, k: nat :| IsTrivia(s, i, t, k) && IsText(s, k, j) && [b] == s.bytes[k..j];
    TriviaIsSkipped(s, i, t, k);
    assert |s.bytes[k..j]| == j - k == 1 && s.bytes[k..j][0] == s.bytes[k];
  }

  lemma FunctionRecordIsNamed(s: Source, d: Definition)
    requires d.kind.Function? && Ranges.IsRecord(s, d)
    ensures FunctionIsNamed(s, d)
  {
    hide ParensAre, AreSuffixes, AreParts, NameIs, TokenIs, SpelledAt, Bodies.IsBody, Ranges.StartsFunction;
    var i := d.start + 6;
    var body: nat, ps :|
      body <= |s.bytes| && body <= d.start + HEADER_LIMIT && IsFunctionHead(s, i, body, d.symbol)
      && Bodies.IsBody(s, body, d.End(), ps);
    var n, a :| i < n <= a < body && HasName(s, i, n, d.symbol) && ParensAre(s, n, a) && Opens(s, a, body);
    var marks, k :| i <= k < n && AreParts(s, i, marks, k) && NameIs(s, k, n, d.symbol);
    var from := NameIsSpelled(s, k, n, d.symbol);
    var others, w :| a <= w < body && AreSuffixes(s, a, others, w) && TokenIs(s, w, Text("{"), body);
    LastByteIs(s, w, '{' as byte, body) by { assert Text("{") == ['{' as byte]; }
  }

  lemma TypeEndsWithComma(s: Source, i: nat, j: nat)
    requires IsType(s, i, j)
    ensures 0 < j <= |s.bytes| && s.bytes[j - 1] == ',' as byte
  {
    hide TokenIs, OwnGroup, AreTypeParts;
    var x, e, g :| TokenIs(s, i, x, e) && x != Text(",") && OwnGroup(s, x, e, g) && TypeEnds(s, g, j);
    var marks, k :| AreTypeParts(s, g, marks, k) && TokenIs(s, k, Text(","), j);
    LastByteIs(s, k, ',' as byte, j) by { assert Text(",") == [',' as byte]; }
  }

  lemma DirectAliasIsNamed(s: Source, w: nat, end: nat, target: seq<byte>)
    requires IsAlias(s, w, end, Some(target))
    ensures TargetIsNamed(s, w, end, target)
  {
    hide TokenIs, AddressSpaceIs, Names, IsType, IsTail, SpelledAt;
    var m, o :| w < m <= o <= end && IsType(s, w, m) && IsOperand(s, m, o, Some(target)) && IsTail(s, o, end);
    TypeEndsWithComma(s, w, m);
    var p, x :| m < p < o && TokenIs(s, m, Text("ptr"), p) && ValueIs(s, true, p, x, o) && Names(x, target);
    var q: nat :| p <= q && TokenIs(s, q, x, o);
    var from := NameIsSpelled(s, q, o, target);
    assert s.bytes[m - 1] == ',' as byte;
  }

  lemma GlobalRecordIsNamed(s: Source, d: Definition)
    requires !d.kind.Function? && Ranges.IsRecord(s, d)
    ensures GlobalIsNamed(s, d)
  {
    hide TokenIs, Names, AreModifiers, IsKeyword, IsAlias, SpelledAt, TargetIsNamed;
    var x :| Names(x, d.symbol) && IsLineHead(s, d.start, x, d.End(), Some(d.kind));
    var n, equals :|
      && d.start < n < equals <= d.End() && TokenIs(s, d.start, x, n)
      && TokenIs(s, n, Text("="), equals) && IsHead(s, equals, d.End(), Some(d.kind));
    assert NameIs(s, d.start, n, d.symbol);
    var from := NameIsSpelled(s, d.start, n, d.symbol);
    assert SpelledAt(s, d.start, n, d.symbol);
    if d.kind.DirectAlias? {
      var marks, k: nat, y, w: nat :|
        && equals <= k < w <= d.End()
        && AreModifiers(s, equals, marks, k) && TokenIs(s, k, y, w) && IsKeyword(y)
        && IsKind(s, y, w, d.End(), Some(d.kind));
      DirectAliasIsNamed(s, w, d.End(), d.kind.target);
      Widens(s, w, d.End(), d.kind.target, n);
    }
  }

  lemma Widens(s: Source, from: nat, end: nat, target: seq<byte>, earlier: nat)
    requires TargetIsNamed(s, from, end, target) && earlier <= from
    ensures TargetIsNamed(s, earlier, end, target)
  {
    hide SpelledAt;
  }

  /**
   Every name that an index reports is the decoded spelling of a global token in the record's own
   header: a function's before its body, an alias's at its start, a target's after the alias's type.
   */
  lemma IndexNames(s: Source)
    requires Index(s).Ok?
    ensures forall d :: d in Index(s).value ==> IsNamedRecord(s, d)
  {
    hide Index, Ranges.IsRecord, IsNamedRecord;
    Ranges.IndexRanges(s);
    forall d | d in Index(s).value
      ensures IsNamedRecord(s, d)
    {
      assert Ranges.Covers(s, d);
      RecordIsNamed(s, d);
    }
  }

  lemma RecordIsNamed(s: Source, d: Definition)
    requires Ranges.IsRecord(s, d)
    ensures IsNamedRecord(s, d)
  {
    if d.kind.Function? {
      FunctionRecordIsNamed(s, d);
    } else {
      GlobalRecordIsNamed(s, d);
    }
  }
}
