/** Decoding of LLVM global names, and its inverse: the way LLVM prints a name in quotes. */
module Symbols {
  import opened Base
  import opened Lexis
  import opened Utf8

  function HexValue(b: byte): (v: nat)
    requires IsHexDigit(b)
    ensures v < 16
  {
    if b <= '9' as byte then b - '0' as byte
    else if 'a' as byte <= b then b - 'a' as byte + 10
    else b - 'A' as byte + 10
  }

  /** The bytes that escaped text stands for. */
  function Unescape(x: seq<byte>, start: nat, end: nat): seq<byte>
    requires start <= end <= |x| && Escaped(x, start, end)
    decreases end - start
  {
    if start == end then []
    else if x[start] != '\\' as byte then [x[start]] + Unescape(x, start + 1, end)
    else if x[start + 1] == '\\' as byte then ['\\' as byte] + Unescape(x, start + 2, end)
    else [16 * HexValue(x[start + 1]) + HexValue(x[start + 2])] + Unescape(x, start + 3, end)
  }

  predicate AllDigits(x: seq<byte>) {
    forall i :: 0 <= i < |x| ==> IsDigit(x[i])
  }

  predicate IsNamed(bytes: seq<byte>) {
    && |bytes| > 1
    && bytes[0] == '@' as byte
    && (IsDigit(bytes[1]) ==> AllDigits(bytes[1..]))
  }

  /** The bytes that a global's token names. */
  function NameOf(x: seq<byte>): seq<byte>
    requires WellFormed(x) && IsNamed(x)
  {
    if x[1] == '"' as byte then Unescape(x, 2, |x| - 1) else x[1..]
  }

  function Decode(token: Token): Result<seq<byte>, Error>
    requires WellFormed(token.bytes)
  {
    if !IsNamed(token.bytes) then Err(Malformed(token.offset))
    else
      var name := NameOf(token.bytes);
      if IsUtf8(name) then Ok(name) else Err(Malformed(token.offset))
  }

  /** What the loop has still to write, from its read index on. */
  ghost function Pending(x: seq<byte>, read: nat, end: nat, quoted: bool): seq<byte>
    requires read <= end <= |x| && (quoted ==> Escaped(x, read, end))
  {
    if quoted then Unescape(x, read, end) else x[read..end]
  }

  lemma PendingByte(x: seq<byte>, read: nat, end: nat, quoted: bool)
    requires read < end <= |x| && (quoted ==> Escaped(x, read, end) && x[read] != '\\' as byte)
    ensures quoted ==> Escaped(x, read + 1, end)
    ensures Pending(x, read, end, quoted) == [x[read]] + Pending(x, read + 1, end, quoted)
  {
  }

  lemma NothingIsPending(x: seq<byte>, end: nat, quoted: bool)
    requires end <= |x|
    ensures Escaped(x, end, end) && Pending(x, end, end, quoted) == []
  {
  }

  /** The buffer holds the name as far as written, and the untouched token from `read` on. */
  ghost predicate Progress(buffer: seq<byte>, x: seq<byte>, write: nat, read: nat, pending: seq<byte>,
                           name: seq<byte>) {
    && write <= read <= |x| == |buffer|
    && |name| == write + |pending|
    && (forall i :: read <= i < |x| ==> buffer[i] == x[i])
    && (forall i :: 0 <= i < write ==> buffer[i] == name[i])
    && (forall i :: 0 <= i < |pending| ==> pending[i] == name[write + i])
  }

  lemma Writes(buffer: seq<byte>, x: seq<byte>, write: nat, read: nat, next: nat, b: byte, pending: seq<byte>,
               name: seq<byte>)
    requires Progress(buffer, x, write, read, [b] + pending, name) && read < next <= |x|
    ensures Progress(buffer[write := b], x, write + 1, next, pending, name)
  {
    var before := [b] + pending;
    assert before[0] == name[write];
    forall i | 0 <= i < |pending| ensures pending[i] == name[write + 1 + i] {
      assert before[1 + i] == name[write + (1 + i)];
    }
  }

  /** Decodes into the token's own buffer: the write index never passes the read index. */
  method DecodeInPlace(bytes: array<byte>, start: nat, end: nat, quoted: bool) returns (write: nat)
    requires start <= end <= bytes.Length && (quoted ==> Escaped(bytes[..], start, end))
    modifies bytes
    ensures write <= bytes.Length && bytes[..write] == Pending(old(bytes[..]), start, end, quoted)
  {
    hide Unescape, Pending, Escaped;
    ghost var x := bytes[..];
    ghost var name := Pending(x, start, end, quoted);
    NothingIsPending(x, end, quoted);
    var read := start;
    write := 0;
    while read < end
      invariant read <= end && (quoted ==> Escaped(x, read, end))
      invariant Progress(bytes[..], x, write, read, Pending(x, read, end, quoted), name)
      decreases end - read
    {
      ghost var buffer, from := bytes[..], read;
      var b := bytes[read];
      read := read + 1;
      if quoted && b == '\\' as byte {
        b, read := DecodeEscape(bytes, read, x, end);
      } else {
        PendingByte(x, from, end, quoted);
      }
      Writes(buffer, x, write, from, read, b, Pending(x, read, end, quoted), name);
      bytes[write] := b;
      assert bytes[..] == buffer[write := b];
      write := write + 1;
    }
    assert bytes[..write] == name;
  }

  /** Decodes a validated escape after its backslash. */
  method DecodeEscape(bytes: array<byte>, read: nat, ghost x: seq<byte>, ghost end: nat)
    returns (b: byte, next: nat)
    requires 1 <= read <= end <= bytes.Length == |x|
    requires forall i :: read <= i < end ==> bytes[i] == x[i]
    requires Escaped(x, read - 1, end) && read - 1 < end && x[read - 1] == '\\' as byte
    ensures read < next <= end
    ensures Escaped(x, next, end)
    ensures Pending(x, read - 1, end, true) == [b] + Pending(x, next, end, true)
  {
    var first := bytes[read];
    if first == '\\' as byte {
      return first, read + 1;
    }
    b, next := 16 * HexValue(first) + HexValue(bytes[read + 1]), read + 2;
  }

  method DecodeSymbol(token: Token) returns (r: Result<seq<byte>, Error>)
    requires WellFormed(token.bytes)
    ensures r == Decode(token)
  {
    if !IsNamed(token.bytes) {
      return Err(Malformed(token.offset));
    }
    var bytes := new byte[|token.bytes|](i requires 0 <= i < |token.bytes| => token.bytes[i]);
    assert bytes[..] == token.bytes && token.bytes[1..] == token.bytes[1..bytes.Length];
    var quoted := bytes[1] == '"' as byte;
    var first, end := if quoted then 2 else 1, if quoted then bytes.Length - 1 else bytes.Length;
    var length := DecodeInPlace(bytes, first, end, quoted);
    var name := bytes[..length];
    r := if IsUtf8(name) then Ok(name) else Err(Malformed(token.offset));
  }

  // ---- What a token names ----

  /** A hex digit of this value, in either case. */
  ghost predicate IsHexOf(c: byte, v: nat) {
    (v < 10 && c == 48 + v) || (10 <= v < 16 && (c == 55 + v || c == 87 + v))
  }

  /** The `n` bytes at an index stand for one byte: itself, a doubled backslash, or two hex digits after one. */
  ghost predicate Denotes(x: seq<byte>, i: nat, n: nat, b: byte) {
    && i + n <= |x|
    && if n == 1 then x[i] == b && b !in {34, 92, 10, 13}
       else if n == 2 then x[i] == 92 && x[i + 1] == 92 && b == 92
       else n == 3 && x[i] == 92 && IsPairOf(x[i + 1], x[i + 2], b)
  }

  ghost predicate IsPairOf(c: byte, d: byte, b: byte) {
    exists high: nat, low: nat :: IsHexOf(c, high) && IsHexOf(d, low) && b == 16 * high + low
  }

  /** The quoted text between two indices stands for the name, byte by byte. */
  ghost predicate Means(x: seq<byte>, start: nat, end: nat, name: seq<byte>)
    decreases |name|
  {
    if name == [] then start == end <= |x|
    else exists n: nat :: start + n <= end && Denotes(x, start, n, name[0]) && Means(x, start + n, end, name[1..])
  }

  /** A global token of this name: a word, which is a number if it starts like one, or quoted text. */
  ghost predicate IsGlobalFor(x: seq<byte>, name: seq<byte>) {
    && |x| > 1 && x[0] == 64
    && if x[1] == 34 then |x| > 2 && x[|x| - 1] == 34 && Means(x, 2, |x| - 1, name)
       else name == x[1..] && (48 <= x[1] <= 57 ==> forall i :: 1 <= i < |x| ==> 48 <= x[i] <= 57)
  }

  lemma HexValueIs(c: byte, v: nat)
    ensures IsHexOf(c, v) <==> IsHexDigit(c) && HexValue(c) == v
  {
  }

  lemma {:induction false} MeansUnescape(x: seq<byte>, start: nat, end: nat)
    requires start <= end <= |x| && Escaped(x, start, end)
    ensures Means(x, start, end, Unescape(x, start, end))
    decreases end - start
  {
    hide IsHexOf, HexValue, Escaped, Unescape, Denotes;
    if start == end {
      UnescapeNothing(x, start);
      return;
    }
    var n, b := FirstDenotes(x, start, end);
    MeansUnescape(x, start + n, end);
    var name := Unescape(x, start, end);
    assert name[0] == b && name[1..] == Unescape(x, start + n, end);
  }

  /** The first escape or byte of quoted text. */
  lemma FirstDenotes(x: seq<byte>, start: nat, end: nat) returns (n: nat, b: byte)
    requires start < end <= |x| && Escaped(x, start, end)
    ensures 0 < n && start + n <= end && Denotes(x, start, n, b) && Escaped(x, start + n, end)
    ensures Unescape(x, start, end) == [b] + Unescape(x, start + n, end)
  {
    if x[start] != '\\' as byte {
      return 1, x[start];
    }
    if x[start + 1] == '\\' as byte {
      return 2, '\\' as byte;
    }
    var high, low := HexValue(x[start + 1]), HexValue(x[start + 2]);
    HexValueIs(x[start + 1], high);
    HexValueIs(x[start + 2], low);
    assert IsHexOf(x[start + 1], high) && IsHexOf(x[start + 2], low);
    n, b := 3, 16 * high + low;
  }

  lemma {:induction false} MeansOnly(x: seq<byte>, start: nat, end: nat, name: seq<byte>)
    requires Means(x, start, end, name)
    ensures start <= end <= |x| && Escaped(x, start, end) && Unescape(x, start, end) == name
    decreases |name|
  {
    hide IsHexOf, HexValue, Escaped, Unescape, Denotes;
    if name != [] {
      var n: nat :| start + n <= end && Denotes(x, start, n, name[0]) && Means(x, start + n, end, name[1..]);
      MeansOnly(x, start + n, end, name[1..]);
      DenotesFirst(x, start, n, end, name[0]);
      assert name == [name[0]] + name[1..];
    } else {
      UnescapeNothing(x, start);
    }
  }

  lemma DenotesFirst(x: seq<byte>, start: nat, n: nat, end: nat, b: byte)
    requires Denotes(x, start, n, b) && start + n <= end <= |x| && Escaped(x, start + n, end)
    ensures Escaped(x, start, end) && Unescape(x, start, end) == [b] + Unescape(x, start + n, end)
  {
    if n == 3 {
      var high: nat, low: nat :|
        IsHexOf(x[start + 1], high) && IsHexOf(x[start + 2], low) && b == 16 * high + low;
      HexValueIs(x[start + 1], high);
      HexValueIs(x[start + 2], low);
    }
  }

  /**
   A token is decoded exactly if it is a global's, its text stands for a name, and the name is text;
   any other token is malformed where it starts.
   */
  lemma DecodeIs(token: Token, name: seq<byte>)
    requires WellFormed(token.bytes)
    ensures Decode(token) == Ok(name) <==> IsGlobalFor(token.bytes, name) && IsUtf8(name)
    ensures Decode(token).Err? ==> Decode(token).error == Malformed(token.offset)
  {
    hide Means, Escaped, Unescape, IsUtf8;
    var x := token.bytes;
    if |x| > 1 && x[0] == '@' as byte && x[1] == '"' as byte {
      MeansUnescape(x, 2, |x| - 1);
      if Means(x, 2, |x| - 1, name) {
        MeansOnly(x, 2, |x| - 1, name);
      }
    }
  }

  /** Quoted text is what stands for some name. */
  lemma EscapedIs(x: seq<byte>, start: nat, end: nat)
    requires start <= end <= |x|
    ensures Escaped(x, start, end) <==> exists name :: Means(x, start, end, name)
  {
    hide Means, Unescape, Escaped;
    if Escaped(x, start, end) {
      MeansUnescape(x, start, end);
    }
    if name :| Means(x, start, end, name) {
      MeansOnly(x, start, end, name);
    }
  }

  // ---- The inverse: LLVM's quoted spelling of a name ----

  function HexChar(v: nat): (b: byte)
    requires v < 16
    ensures IsHexDigit(b) && HexValue(b) == v && b != '\\' as byte
  {
    if v < 10 then '0' as byte + v else 'A' as byte + (v - 10)
  }

  function QuoteByte(b: byte): seq<byte> {
    if b == '\\' as byte then [b, b]
    else if 0x20 <= b <= 0x7E && b != '"' as byte then [b]
    else ['\\' as byte, HexChar(b / 16), HexChar(b % 16)]
  }

  /** LLVM's escaped spelling of the bytes from an index on. */
  function QuoteFrom(name: seq<byte>, k: nat): seq<byte>
    requires k <= |name|
    decreases |name| - k
  {
    if k == |name| then [] else QuoteByte(name[k]) + QuoteFrom(name, k + 1)
  }

  /** LLVM's escaped spelling: printable bytes as they are, a doubled backslash, the rest in hex. */
  function Quote(name: seq<byte>): seq<byte> {
    QuoteFrom(name, 0)
  }

  function QuotedName(name: seq<byte>): seq<byte> {
    ['@' as byte, '"' as byte] + Quote(name) + ['"' as byte]
  }

  /** The spelling of one byte stands at an index, before `end`. */
  ghost predicate SpellsByte(x: seq<byte>, start: nat, end: nat, b: byte) {
    var head := QuoteByte(b);
    && start + |head| <= end <= |x|
    && x[start] == head[0]
    && (|head| > 1 ==> x[start + 1] == head[1])
    && (|head| > 2 ==> x[start + 2] == head[2])
  }

  /** The bytes between two indices spell a name's bytes from `k` on. */
  ghost predicate Spells(x: seq<byte>, start: nat, end: nat, name: seq<byte>, k: nat)
    requires k <= |name|
    decreases |name| - k
  {
    if k == |name| then start == end <= |x|
    else SpellsByte(x, start, end, name[k]) && Spells(x, start + |QuoteByte(name[k])|, end, name, k + 1)
  }

  lemma {:induction false} QuoteSpells(x: seq<byte>, start: nat, name: seq<byte>, k: nat)
    requires k <= |name| && Occurs(x, start, QuoteFrom(name, k))
    ensures Spells(x, start, start + |QuoteFrom(name, k)|, name, k)
    decreases |name| - k
  {
    if k < |name| {
      var head := QuoteByte(name[k]);
      OccursParts(x, start, head, QuoteFrom(name, k + 1));
      assert x[start] == head[0] && (|head| > 1 ==> x[start + 1] == head[1])
        && (|head| > 2 ==> x[start + 2] == head[2]);
      QuoteSpells(x, start + |head|, name, k + 1);
    }
  }

  lemma UnescapeByte(x: seq<byte>, start: nat, end: nat, b: byte)
    requires SpellsByte(x, start, end, b) && Escaped(x, start + |QuoteByte(b)|, end)
    ensures Escaped(x, start, end)
    ensures Unescape(x, start, end) == [b] + Unescape(x, start + |QuoteByte(b)|, end)
  {
  }

  lemma UnescapeNothing(x: seq<byte>, i: nat)
    requires i <= |x|
    ensures Escaped(x, i, i) && Unescape(x, i, i) == []
  {
  }

  lemma {:induction false} UnescapeFrom(x: seq<byte>, start: nat, end: nat, name: seq<byte>, k: nat)
    requires k <= |name| && Spells(x, start, end, name, k)
    ensures start <= end <= |x| && Escaped(x, start, end)
    ensures var plain := Unescape(x, start, end);
            |plain| == |name| - k && forall i :: 0 <= i < |plain| ==> plain[i] == name[k + i]
    decreases |name| - k
  {
    hide Escaped, Unescape, QuoteByte, SpellsByte;
    if k == |name| {
      UnescapeNothing(x, start);
      return;
    }
    UnescapeFrom(x, start + |QuoteByte(name[k])|, end, name, k + 1);
    UnescapeByte(x, start, end, name[k]);
  }

  lemma UnescapeInvertsQuote(x: seq<byte>, start: nat, end: nat, name: seq<byte>)
    requires Occurs(x, start, Quote(name)) && end == start + |Quote(name)|
    ensures Escaped(x, start, end) && Unescape(x, start, end) == name
  {
    QuoteSpells(x, start, name, 0);
    UnescapeFrom(x, start, end, name, 0);
  }

  /** The reader of quoted tokens accepts every escaped text, up to its closing quote. */
  lemma {:induction false} QuotedAccepts(s: Source, c: Cursor, end: nat)
    requires c.offset <= end < |s.bytes| && Escaped(s.bytes, c.offset, end) && s.bytes[end] == '"' as byte
    requires Fits(s, c) && Fits(s, c.(offset := end + 1))
    ensures Quoted(s, c) == Ok(((), c.(offset := end + 1)))
    decreases end - c.offset
  {
    hide Locates;
    if c.offset < end {
      var x, i := s.bytes, c.offset;
      if x[i] != '\\' as byte {
        QuotedAccepts(s, c.(offset := i + 1), end);
      } else if x[i + 1] == '\\' as byte {
        QuotedAccepts(s, c.(offset := i + 2), end);
      } else {
        QuotedAccepts(s, c.(offset := i + 3), end);
      }
    }
  }

  lemma QuotedNameParts(x: seq<byte>, i: nat, name: seq<byte>)
    requires Occurs(x, i, QuotedName(name))
    ensures var end := i + |QuotedName(name)| - 1;
            && x[i] == '@' as byte && x[i + 1] == '"' as byte && x[end] == '"' as byte
            && Occurs(x, i + 2, Quote(name)) && i + 2 + |Quote(name)| == end
  {
    var text := QuotedName(name);
    OccursParts(x, i, ['@' as byte, '"' as byte] + Quote(name), ['"' as byte]);
    OccursParts(x, i, ['@' as byte, '"' as byte], Quote(name));
    assert text[0] == '@' as byte && text[1] == '"' as byte && text[|text| - 1] == '"' as byte;
  }

  lemma CompletesQuotedName(s: Source, c: Cursor, name: seq<byte>)
    requires Occurs(s.bytes, c.offset, QuotedName(name))
    requires Fits(s, c) && Fits(s, c.(offset := c.offset + |QuotedName(name)|))
    ensures var end := c.offset + |QuotedName(name)|;
            CompleteToken(s, c.(offset := c.offset + 1), s.bytes[c.offset]) == Ok(((), c.(offset := end)))
  {
    hide Escaped, Unescape, Quote, QuotedName, Quoted, Word, WellFormed, Occurs;
    var end := c.offset + |QuotedName(name)| - 1;
    QuotedNameParts(s.bytes, c.offset, name);
    UnescapeInvertsQuote(s.bytes, c.offset + 2, end, name);
    QuotedAccepts(s, c.(offset := c.offset + 2), end);
    assert Take(s, c.(offset := c.offset + 1)) == Ok((Some('"' as byte), c.(offset := c.offset + 2)));
  }

  lemma ReadsQuotedName(s: Source, c: Cursor, name: seq<byte>)
    requires Occurs(s.bytes, c.offset, QuotedName(name))
    requires Fits(s, c) && Fits(s, c.(offset := c.offset + |QuotedName(name)|))
    ensures var end := c.offset + |QuotedName(name)|;
            RequiredToken(s, c) == Ok((Token(s.bytes[c.offset..end], c.offset), c.(offset := end)))
  {
    QuotedNameParts(s.bytes, c.offset, name);
    CompletesQuotedName(s, c, name);
    assert SkipTrivia(s, c, false) == Ok((false, c));
    assert Take(s, c) == Ok((Some('@' as byte), c.(offset := c.offset + 1)));
  }

  lemma NamesQuotedName(name: seq<byte>)
    requires name != []
    ensures var text := QuotedName(name); WellFormed(text) && IsNamed(text) && NameOf(text) == name
  {
    var text := QuotedName(name);
    assert Occurs(text, 0, text);
    QuotedNameParts(text, 0, name);
    assert text[0] == '@' as byte && text[1] == '"' as byte;
    UnescapeInvertsQuote(text, 2, |text| - 1, name);
    assert Delimited(text, 2);
  }

  /**
   Reading the quoted spelling of any nonempty name, wherever it stands, yields that spelling as one
   token, and decoding the token gives the name back.
   */
  lemma DecodeInvertsQuotedName(s: Source, c: Cursor, name: seq<byte>)
    requires name != [] && Occurs(s.bytes, c.offset, QuotedName(name))
    requires Fits(s, c) && Fits(s, c.(offset := c.offset + |QuotedName(name)|))
    ensures var token := Token(QuotedName(name), c.offset);
            && WellFormed(token.bytes)
            && RequiredToken(s, c) == Ok((token, c.(offset := c.offset + |token.bytes|)))
            && Decode(token) == if IsUtf8(name) then Ok(name) else Err(Malformed(c.offset))
  {
    hide RequiredToken, QuotedName, WellFormed, IsNamed, NameOf, IsUtf8, Occurs;
    ReadsQuotedName(s, c, name);
    OccursSlice(s.bytes, c.offset, QuotedName(name));
    NamesQuotedName(name);
  }
}
