/** Values shared by every component: bytes, machine-word bounds and failure-compatible results. */
module Base {

  type byte = b: int | 0 <= b < 256

  const U32_MAX: nat := 0xFFFF_FFFF
  const U64_MAX: nat := 0xFFFF_FFFF_FFFF_FFFF

  datatype Option<+T> = None | Some(value: T)

  /** The source's `Result`, usable with `:-` where the source uses `?`. */
  datatype Result<+T, +E> = Ok(value: T) | Err(error: E) {
    predicate IsFailure() {
      Err?
    }

    function PropagateFailure<U>(): Result<U, E>
      requires Err?
    {
      Err(error)
    }

    function Extract(): T
      requires Ok?
    {
      value
    }
  }

  /** The bytes of an ASCII literal. */
  function Text(literal: string): (bytes: seq<byte>)
    ensures |bytes| == |literal|
  {
    seq(|literal|, i requires 0 <= i < |literal| => literal[i] as int % 256)
  }

  function Min(a: nat, b: nat): nat {
    if a <= b then a else b
  }

  /** The text stands in `x` at index `i`. */
  ghost predicate Occurs(x: seq<byte>, i: nat, text: seq<byte>) {
    i + |text| <= |x| && forall k {:trigger text[k]} :: 0 <= k < |text| ==> x[i + k] == text[k]
  }

  lemma OccursParts(x: seq<byte>, i: nat, head: seq<byte>, tail: seq<byte>)
    requires Occurs(x, i, head + tail)
    ensures Occurs(x, i, head) && Occurs(x, i + |head|, tail)
  {
    forall k | 0 <= k < |head| ensures x[i + k] == head[k] {
      assert (head + tail)[k] == head[k];
    }
    forall k | 0 <= k < |tail| ensures x[i + |head| + k] == tail[k] {
      assert (head + tail)[|head| + k] == tail[k];
    }
  }

  lemma OccursJoin(x: seq<byte>, i: nat, head: seq<byte>, tail: seq<byte>)
    requires Occurs(x, i, head) && Occurs(x, i + |head|, tail)
    ensures Occurs(x, i, head + tail)
  {
    var text := head + tail;
    forall k | 0 <= k < |text| ensures x[i + k] == text[k] {
      if k >= |head| {
        assert x[i + |head| + (k - |head|)] == tail[k - |head|];
      }
    }
  }

  lemma OccursSlice(x: seq<byte>, i: nat, text: seq<byte>)
    requires Occurs(x, i, text)
    ensures i + |text| <= |x| && x[i..i + |text|] == text
  {
  }
}
