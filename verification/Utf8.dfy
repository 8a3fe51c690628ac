/** Well-formed UTF-8. */
module Utf8 {
  import opened Base

  /** The length of the well-formed UTF-8 sequence at an index, if there is one. */
  function Utf8Length(x: seq<byte>, i: nat): (n: Option<nat>)
    requires i < |x|
    ensures n.Some? ==> 1 <= n.value && i + n.value <= |x|
  {
    var second := if i + 1 < |x| then x[i + 1] else 0;
    var third := if i + 2 < |x| then x[i + 2] else 0;
    var fourth := if i + 3 < |x| then x[i + 3] else 0;
    if x[i] < 0x80 then Some(1)
    else if 0xC2 <= x[i] <= 0xDF then
      if 0x80 <= second <= 0xBF then Some(2) else None
    else if 0xE0 <= x[i] <= 0xEF then
      var low := if x[i] == 0xE0 then 0xA0 else 0x80;
      var high := if x[i] == 0xED then 0x9F else 0xBF;
      if low <= second <= high && 0x80 <= third <= 0xBF then Some(3) else None
    else if 0xF0 <= x[i] <= 0xF4 then
      var low := if x[i] == 0xF0 then 0x90 else 0x80;
      var high := if x[i] == 0xF4 then 0x8F else 0xBF;
      if low <= second <= high && 0x80 <= third <= 0xBF && 0x80 <= fourth <= 0xBF then Some(4) else None
    else None
  }

  predicate IsUtf8From(x: seq<byte>, i: nat)
    requires i <= |x|
    decreases |x| - i
  {
    i < |x| ==> var n := Utf8Length(x, i); n.Some? && IsUtf8From(x, i + n.value)
  }

  /** Well-formed UTF-8: no overlong form, no surrogate, nothing above U+10FFFF. */
  predicate IsUtf8(x: seq<byte>) {
    IsUtf8From(x, 0)
  }

  // ---- What well-formed means ----

  /** A Unicode scalar value: any code point but the surrogates. */
  predicate IsScalar(c: nat) {
    c < 0xD800 || 0xE000 <= c <= 0x10FFFF
  }

  /** The UTF-8 form of a scalar value. */
  function Encoded(c: nat): (x: seq<byte>)
    requires IsScalar(c)
    ensures 1 <= |x| <= 4
  {
    if c < 0x80 then [c]
    else if c < 0x800 then [0xC0 + c / 64, 0x80 + c % 64]
    else if c < 0x10000 then [0xE0 + c / 4096, 0x80 + c / 64 % 64, 0x80 + c % 64]
    else [0xF0 + c / 262144, 0x80 + c / 4096 % 64, 0x80 + c / 64 % 64, 0x80 + c % 64]
  }

  ghost predicate Scalars(cs: seq<nat>) {
    forall i :: 0 <= i < |cs| ==> IsScalar(cs[i])
  }

  ghost function EncodedAll(cs: seq<nat>): seq<byte>
    requires Scalars(cs)
  {
    if cs == [] then [] else Encoded(cs[0]) + EncodedAll(cs[1..])
  }

  lemma Digits(a: nat, b: nat, c: nat, d: nat)
    requires b < 64 && c < 64 && d < 64
    ensures var v := a * 262144 + b * 4096 + c * 64 + d;
            v / 262144 == a && v / 4096 % 64 == b && v / 64 % 64 == c && v % 64 == d
  {
    var v := a * 262144 + b * 4096 + c * 64 + d;
    assert v / 262144 == a;
    assert v / 4096 == a * 64 + b;
    assert v / 64 == a * 4096 + b * 64 + c;
  }

  lemma TwoBytes(b: nat, c: nat)
    requires 2 <= b < 32 && c < 64
    ensures var v := b * 64 + c; IsScalar(v) && Encoded(v) == [0xC0 + b, 0x80 + c]
  {
    Digits(0, 0, b, c);
  }

  lemma ThreeBytes(a: nat, b: nat, c: nat)
    requires a < 16 && b < 64 && c < 64 && (a == 0 ==> b >= 32) && (a == 13 ==> b < 32)
    ensures var v := a * 4096 + b * 64 + c; IsScalar(v) && Encoded(v) == [0xE0 + a, 0x80 + b, 0x80 + c]
  {
    Digits(0, a, b, c);
  }

  lemma FourBytes(a: nat, b: nat, c: nat, d: nat)
    requires a <= 4 && b < 64 && c < 64 && d < 64 && (a == 0 ==> b >= 16) && (a == 4 ==> b < 16)
    ensures var v := a * 262144 + b * 4096 + c * 64 + d;
            IsScalar(v) && Encoded(v) == [0xF0 + a, 0x80 + b, 0x80 + c, 0x80 + d]
  {
    Digits(a, b, c, d);
  }

  /** The scalar value whose form stands at an index. */
  lemma LengthReads(x: seq<byte>, i: nat) returns (c: nat)
    requires i < |x| && Utf8Length(x, i).Some?
    ensures IsScalar(c) && Utf8Length(x, i) == Some(|Encoded(c)|) && Occurs(x, i, Encoded(c))
  {
    hide IsScalar, Encoded;
    var first: int := x[i];
    if first < 0x80 {
      OneByte(first);
      return first;
    }
    var second: int := x[i + 1] - 0x80;
    if first < 0xE0 {
      c := (first - 0xC0) * 64 + second;
      TwoBytes(first - 0xC0, second);
      return;
    }
    var third: int := x[i + 2] - 0x80;
    if first < 0xF0 {
      c := (first - 0xE0) * 4096 + second * 64 + third;
      ThreeBytes(first - 0xE0, second, third);
      return;
    }
    var fourth: int := x[i + 3] - 0x80;
    c := (first - 0xF0) * 262144 + second * 4096 + third * 64 + fourth;
    FourBytes(first - 0xF0, second, third, fourth);
  }

  lemma OneByte(c: nat)
    requires c < 0x80
    ensures IsScalar(c) && Encoded(c) == [c]
  {
  }

  lemma LengthAccepts(x: seq<byte>, i: nat, c: nat)
    requires IsScalar(c) && Occurs(x, i, Encoded(c))
    ensures Utf8Length(x, i) == Some(|Encoded(c)|)
  {
    var e := Encoded(c);
    assert x[i + 0] == e[0];
    assert |e| > 1 ==> x[i + 1] == e[1];
    assert |e| > 2 ==> x[i + 2] == e[2];
    assert |e| > 3 ==> x[i + 3] == e[3];
  }

  lemma SplitsAt(x: seq<byte>, i: nat, n: nat)
    requires i + n <= |x|
    ensures x[i..] == x[i..i + n] + x[i + n..]
  {
  }

  lemma {:induction false} Utf8Reads(x: seq<byte>, i: nat) returns (cs: seq<nat>)
    requires i <= |x| && IsUtf8From(x, i)
    ensures Scalars(cs) && x[i..] == EncodedAll(cs)
    decreases |x| - i
  {
    hide Utf8Length, Encoded, IsScalar, Occurs;
    if i == |x| {
      return [];
    }
    var c := LengthReads(x, i);
    var n := |Encoded(c)|;
    OccursSlice(x, i, Encoded(c));
    var rest := Utf8Reads(x, i + n);
    cs := [c] + rest;
    assert cs[1..] == rest;
    SplitsAt(x, i, n);
  }

  lemma {:induction false} Utf8Accepts(x: seq<byte>, i: nat, cs: seq<nat>)
    requires i <= |x| && Scalars(cs) && x[i..] == EncodedAll(cs)
    ensures IsUtf8From(x, i)
    decreases |cs|
  {
    hide Utf8Length, Encoded;
    if cs != [] {
      var e := Encoded(cs[0]);
      forall k | 0 <= k < |e| ensures x[i + k] == e[k] {
        assert x[i..][k] == e[k];
      }
      LengthAccepts(x, i, cs[0]);
      assert x[i + |e|..] == x[i..][|e|..] == EncodedAll(cs[1..]);
      Utf8Accepts(x, i + |e|, cs[1..]);
    }
  }

  /** Text is well formed exactly if it is the forms of some scalar values, one after the other. */
  lemma Utf8IsEncoded(x: seq<byte>)
    ensures IsUtf8(x) <==> exists cs :: Scalars(cs) && x == EncodedAll(cs)
  {
    assert x[0..] == x;
    if IsUtf8(x) {
      var cs := Utf8Reads(x, 0);
    }
    if cs :| Scalars(cs) && x == EncodedAll(cs) {
      Utf8Accepts(x, 0, cs);
    }
  }
}
