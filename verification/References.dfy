/** The text of capture IDs and instance references. */
module References {
  import opened Base

  type Text = seq<byte>

  // ---- Reverse hexadecimal ----

  const DIGITS: string := "zyxwvutsrqponmlk"

  function Digit(nibble: nat): (d: byte)
    requires nibble < 16
    ensures d == 'z' as int - nibble
  {
    assert forall n :: 0 <= n < 16 ==> DIGITS[n] as int == 'z' as int - n by {
      assert DIGITS == ['z', 'y', 'x', 'w', 'v', 'u', 't', 's', 'r', 'q', 'p', 'o', 'n', 'm', 'l', 'k'];
    }
    DIGITS[nibble] as int
  }

  /** The high nibble of byte k at position 2k and its low nibble at 2k + 1. */
  ghost predicate Encodes(bytes: seq<byte>, text: Text) {
    && |text| == 2 * |bytes|
    && forall k :: 0 <= k < |bytes| ==>
         text[2 * k] == Digit(bytes[k] / 16) && text[2 * k + 1] == Digit(bytes[k] % 16)
  }

  lemma EncodesOneMore(bytes: seq<byte>, n: nat, text: Text)
    requires n < |bytes| && Encodes(bytes[..n], text)
    ensures Encodes(bytes[..n + 1], text + [Digit(bytes[n] / 16)] + [Digit(bytes[n] % 16)])
  {
    var before, after := bytes[..n], bytes[..n + 1];
    var longer := text + [Digit(bytes[n] / 16)] + [Digit(bytes[n] % 16)];
    assert forall i :: 0 <= i < |text| ==> longer[i] == text[i];
    forall k | 0 <= k < n + 1
      ensures longer[2 * k] == Digit(after[k] / 16) && longer[2 * k + 1] == Digit(after[k] % 16)
    {
      if k < n {
        assert before[k] == after[k];
      }
    }
  }

  method Encode(bytes: seq<byte>) returns (encoded: Text)
    ensures Encodes(bytes, encoded)
  {
    encoded := [];
    for i := 0 to |bytes|
      invariant Encodes(bytes[..i], encoded)
    {
      EncodesOneMore(bytes, i, encoded);
      encoded := encoded + [Digit(bytes[i] / 16)];
      encoded := encoded + [Digit(bytes[i] % 16)];
    }
    assert bytes[..|bytes|] == bytes;
  }

  predicate IsDigit(d: byte) {
    'k' as int <= d <= 'z' as int
  }

  predicate IsCanonical(text: Text) {
    |text| % 2 == 0 && forall i :: 0 <= i < |text| ==> IsDigit(text[i])
  }

  /** The byte that a pair of digits encodes. */
  function Paired(high: byte, low: byte): byte
    requires IsDigit(high) && IsDigit(low)
  {
    ('z' as int - high) * 16 + ('z' as int - low)
  }

  function Decoded(text: Text): (bytes: seq<byte>)
    requires IsCanonical(text)
    ensures |bytes| == |text| / 2
  {
    seq(|text| / 2, k requires 0 <= k < |text| / 2 => Paired(text[2 * k], text[2 * k + 1]))
  }

  /** The accepted texts are exactly the encodings. */
  lemma CanonicalMeansEncoded(text: Text)
    ensures IsCanonical(text) <==> exists bytes :: Encodes(bytes, text)
  {
    if IsCanonical(text) {
      assert Encodes(Decoded(text), text);
    } else if bytes :| Encodes(bytes, text) {
      forall i | 0 <= i < |text| ensures IsDigit(text[i]) {
        assert i == 2 * (i / 2) || i == 2 * (i / 2) + 1;
        assert text[2 * (i / 2)] == Digit(bytes[i / 2] / 16) && text[2 * (i / 2) + 1] == Digit(bytes[i / 2] % 16);
      }
      assert false;
    }
  }

  lemma EncodingIsInjective(a: seq<byte>, b: seq<byte>, text: Text)
    requires Encodes(a, text) && Encodes(b, text)
    ensures a == b
  {
    forall k | 0 <= k < |a| ensures a[k] == b[k] {
      assert Digit(a[k] / 16) == Digit(b[k] / 16) && Digit(a[k] % 16) == Digit(b[k] % 16);
    }
  }

  // ---- Decimal ordinals ----

  predicate IsDecimal(d: byte) {
    '0' as int <= d <= '9' as int
  }

  predicate AllDecimal(text: Text) {
    forall i :: 0 <= i < |text| ==> IsDecimal(text[i])
  }

  /** The value of the first `n` digits. */
  function Value(text: Text, n: nat): (v: nat)
    requires n <= |text| && AllDecimal(text)
  {
    if n == 0 then 0 else Value(text, n - 1) * 10 + (text[n - 1] - '0' as int)
  }

  function Digits(v: nat): (text: Text)
    ensures AllDecimal(text) && text != []
    ensures v > 0 ==> text[0] != '0' as int
    ensures v == 0 ==> |text| == 1
  {
    if v < 10 then ['0' as int + v] else Digits(v / 10) + ['0' as int + v % 10]
  }

  lemma {:induction false} ValueGrows(text: Text, i: nat, n: nat)
    requires i <= n <= |text| && AllDecimal(text)
    ensures Value(text, i) <= Value(text, n)
    decreases n - i
  {
    if i < n {
      ValueGrows(text, i, n - 1);
    }
  }

  lemma {:induction false} ValueOfPrefix(a: Text, b: Text, n: nat)
    requires AllDecimal(a) && AllDecimal(b) && n <= |a| && n <= |b|
    requires forall i :: 0 <= i < n ==> a[i] == b[i]
    ensures Value(a, n) == Value(b, n)
  {
    if n > 0 {
      ValueOfPrefix(a, b, n - 1);
    }
  }

  lemma {:induction false} ValueOfDigits(v: nat)
    ensures Value(Digits(v), |Digits(v)|) == v
  {
    var text := Digits(v);
    if v >= 10 {
      ValueOfDigits(v / 10);
      ValueOfPrefix(text, Digits(v / 10), |text| - 1);
    } else {
      assert Value(text, 0) == 0;
    }
  }

  /** No leading zeros, except in zero itself. */
  predicate IsOrdinal(text: Text) {
    text != [] && AllDecimal(text) && !(|text| > 1 && text[0] == '0' as int)
  }

  lemma {:induction false} PositiveValue(text: Text, n: nat)
    requires AllDecimal(text) && 0 < n <= |text| && text[0] != '0' as int
    ensures Value(text, n) > 0
  {
    ValueGrows(text, 1, n);
    assert Value(text, 0) == 0;
  }

  lemma {:induction false} DigitsOfValue(text: Text)
    requires IsOrdinal(text)
    ensures Digits(Value(text, |text|)) == text
    decreases |text|
  {
    var n := |text| - 1;
    if n == 0 {
      assert Value(text, 0) == 0;
    } else {
      var front := text[..n];
      DigitsOfValue(front);
      ValueOfPrefix(text, front, n);
      PositiveValue(front, n);
      assert text == front + [text[n]];
    }
  }

  /** Accumulates digits and stops at the first that does not fit into 64 bits. */
  method ParseU64(text: Text) returns (r: Option<nat>)
    requires AllDecimal(text)
    ensures r == if Value(text, |text|) <= U64_MAX then Some(Value(text, |text|)) else None
  {
    var value := 0;
    for i := 0 to |text|
      invariant value == Value(text, i) <= U64_MAX
    {
      ValueGrows(text, i + 1, |text|);
      var next := value * 10;
      if next > U64_MAX || next + (text[i] - '0' as int) > U64_MAX {
        return None;
      }
      value := next + (text[i] - '0' as int);
    }
    r := Some(value);
  }

  // ---- Instance references ----

  const CAPTURE_ID_LENGTH: nat := 32
  const COLON: byte := ':' as byte

  datatype InstanceRef = InstanceRef(captureId: Text, ordinal: nat)

  predicate IsCaptureId(text: Text) {
    |text| == CAPTURE_ID_LENGTH && IsCanonical(text)
  }

  /** What the types of a reference's fields guarantee. */
  predicate IsReference(r: InstanceRef) {
    IsCaptureId(r.captureId) && r.ordinal <= U64_MAX
  }

  function Display(r: InstanceRef): Text {
    r.captureId + [COLON] + Digits(r.ordinal)
  }

  /** Splits at the first colon. */
  method SplitOnce(text: Text) returns (r: Option<(Text, Text)>)
    ensures r.None? <==> COLON !in text
    ensures r.Some? ==> text == r.value.0 + [COLON] + r.value.1 && COLON !in r.value.0
  {
    for i := 0 to |text|
      invariant COLON !in text[..i]
    {
      if text[i] == COLON {
        assert text == text[..i] + [COLON] + text[i + 1..];
        return Some((text[..i], text[i + 1..]));
      }
    }
    r := None;
  }

  ghost predicate Denotes(text: Text, r: InstanceRef) {
    IsReference(r) && Display(r) == text
  }

  lemma SplitsAlike(a: Text, b: Text, c: Text, d: Text)
    requires a + [COLON] + b == c + [COLON] + d
    requires COLON !in a && COLON !in c
    ensures a == c && b == d
  {
    var text := a + [COLON] + b;
    assert text[|a|] == COLON && text[|c|] == COLON;
    assert |a| == |c|;
    assert a == text[..|a|] && c == text[..|c|];
    assert b == text[|a| + 1..] && d == text[|c| + 1..];
  }

  lemma PartsOf(left: Text, right: Text, r: InstanceRef)
    requires COLON !in left
    ensures Denotes(left + [COLON] + right, r) <==>
              && r.captureId == left && IsCaptureId(left)
              && IsOrdinal(right) && Value(right, |right|) == r.ordinal <= U64_MAX
  {
    if Denotes(left + [COLON] + right, r) {
      SplitsAlike(left, right, r.captureId, Digits(r.ordinal));
      ValueOfDigits(r.ordinal);
    } else if r.captureId == left && IsCaptureId(left) && IsOrdinal(right)
              && Value(right, |right|) == r.ordinal <= U64_MAX {
      DigitsOfValue(right);
      assert false;
    }
  }

  /** A text has one colon after a reference's capture ID, which has none. */
  lemma DisplayHasColon(r: InstanceRef)
    ensures COLON in Display(r)
  {
    assert Display(r)[|r.captureId|] == COLON;
  }

  /** Parsing accepts exactly the displayed texts, and returns the reference that displays so. */
  method Parse(text: Text) returns (r: Option<InstanceRef>)
    ensures r.Some? ==> Denotes(text, r.value)
    ensures r.None? ==> forall i :: !Denotes(text, i)
  {
    var split := SplitOnce(text);
    if split.None? {
      forall i ensures !Denotes(text, i) {
        DisplayHasColon(i);
      }
      return None;
    }
    var (capture, ordinal) := split.value;
    forall i
      ensures Denotes(text, i) <==>
                && i.captureId == capture && IsCaptureId(capture)
                && IsOrdinal(ordinal) && Value(ordinal, |ordinal|) == i.ordinal <= U64_MAX
    {
      PartsOf(capture, ordinal, i);
    }
    if !IsOrdinal(ordinal) || !IsCaptureId(capture) {
      return None;
    }
    var value := ParseU64(ordinal);
    r := if value.None? then None else Some(InstanceRef(capture, value.value));
  }

  /** A text denotes at most one reference, so parsing inverts display. */
  lemma DisplayIsInjective(text: Text, a: InstanceRef, b: InstanceRef)
    requires Denotes(text, a) && Denotes(text, b)
    ensures a == b
  {
    SplitsAlike(a.captureId, Digits(a.ordinal), b.captureId, Digits(b.ordinal));
    ValueOfDigits(a.ordinal);
    ValueOfDigits(b.ordinal);
  }

  method DisplayThenParse(r: InstanceRef) returns (parsed: Option<InstanceRef>)
    requires IsReference(r)
    ensures parsed == Some(r)
  {
    parsed := Parse(Display(r));
    assert Denotes(Display(r), r);
    DisplayIsInjective(Display(r), r, parsed.value);
  }
}
