/** Paths as the decoder compares them: by their components. */
module Paths {
  import opened Base

  type Name = seq<byte>

  /** A path's components: empty ones and inner dots do not count. */
  datatype Path = Path(absolute: bool, components: seq<Name>)

  const SLASH: byte := '/' as byte
  const DOT: Name := ['.' as byte]
  const PARENT: Name := ['.' as byte, '.' as byte]

  function Component(part: Name, first: bool): seq<Name> {
    if part == [] || (part == DOT && !first) then [] else [part]
  }

  /** The components of the text from `start`, where a component's end is sought from `i`. */
  function Components(text: Name, start: nat, i: nat): seq<Name>
    requires start <= i <= |text|
    decreases |text| - i
  {
    if i == |text| then Component(text[start..i], start == 0)
    else if text[i] == SLASH then Component(text[start..i], start == 0) + Components(text, i + 1, i + 1)
    else Components(text, start, i + 1)
  }

  function PathOf(text: Name): Path {
    Path(text != [] && text[0] == SLASH, Components(text, 0, 0))
  }

  /** The path names a file directly in the directory. */
  predicate IsImmediate(directory: Path, path: Path) {
    && path.absolute == directory.absolute
    && path.components != []
    && path.components[..|path.components| - 1] == directory.components
    && path.components[|path.components| - 1] != PARENT
  }

  // ---- What these mean ----

  /** The parts with a slash between any two of them. */
  ghost function Joined(parts: seq<Name>): Name
    requires parts != []
  {
    if |parts| == 1 then parts[0] else parts[0] + ['/' as byte] + Joined(parts[1..])
  }

  /** The text is cut at each of its slashes. */
  ghost predicate IsCut(text: Name, parts: seq<Name>) {
    parts != [] && Joined(parts) == text && forall i :: 0 <= i < |parts| ==> '/' as byte !in parts[i]
  }

  /** The parts that count: not the empty ones, and a single dot only at the very start. */
  ghost function Counted(parts: seq<Name>, first: bool): seq<Name> {
    if parts == [] then []
    else if parts[0] == [] || (parts[0] == ['.' as byte] && !first) then Counted(parts[1..], false)
    else [parts[0]] + Counted(parts[1..], false)
  }

  /** Every text can be cut. */
  lemma {:induction false} CutExists(text: Name) returns (parts: seq<Name>)
    ensures IsCut(text, parts)
    decreases |text|
  {
    if text == [] {
      return [[]];
    }
    var rest := CutExists(text[1..]);
    assert text == [text[0]] + text[1..];
    if text[0] == '/' as byte {
      parts := [[]] + rest;
      assert parts[1..] == rest;
    } else {
      parts := [[text[0]] + rest[0]] + rest[1..];
      JoinedHead(rest, text[0]);
    }
  }

  lemma JoinedHead(parts: seq<Name>, b: byte)
    requires parts != []
    ensures Joined([[b] + parts[0]] + parts[1..]) == [b] + Joined(parts)
  {
    var more := [[b] + parts[0]] + parts[1..];
    assert more[1..] == parts[1..];
  }

  lemma {:induction false} ScanPart(text: Name, start: nat, i: nat, end: nat)
    requires start <= i <= end <= |text| && forall k :: i <= k < end ==> text[k] != SLASH
    ensures Components(text, start, i) == Components(text, start, end)
    decreases end - i
  {
    if i < end {
      ScanPart(text, start, i + 1, end);
    }
  }

  lemma {:induction false} ComponentsAre(text: Name, start: nat, parts: seq<Name>)
    requires start <= |text| && IsCut(text[start..], parts)
    ensures Components(text, start, start) == Counted(parts, start == 0)
    decreases |parts|
  {
    var end := start + |parts[0]|;
    var rest := text[start..];
    assert parts[0] == rest[..|parts[0]|] == text[start..end];
    forall k | start <= k < end ensures text[k] != SLASH {
      assert text[k] == parts[0][k - start];
    }
    ScanPart(text, start, start, end);
    if |parts| == 1 {
      assert end == |text| && parts[1..] == [];
    } else {
      assert rest[|parts[0]|] == '/' as byte == text[end];
      assert text[end + 1..] == rest[|parts[0]| + 1..] == Joined(parts[1..]);
      ComponentsAre(text, end + 1, parts[1..]);
    }
  }

  /** A path is what its text, cut at the slashes, spells: absolute after a leading slash, and the counted parts. */
  lemma PathIsCounted(text: Name, parts: seq<Name>)
    requires IsCut(text, parts)
    ensures PathOf(text) == Path(|parts| > 1 && parts[0] == [], Counted(parts, true))
  {
    assert text[0..] == text;
    ComponentsAre(text, 0, parts);
    if parts[0] != [] {
      assert text[0] == parts[0][0];
    } else if |parts| > 1 {
      assert text == ['/' as byte] + Joined(parts[1..]);
    }
  }

  /** The path is its directory's with one more name, which does not lead back up. */
  ghost predicate IsChild(directory: Path, path: Path) {
    exists name :: name != Text("..") && path == Path(directory.absolute, directory.components + [name])
  }

  lemma ImmediateIsChild(directory: Path, path: Path)
    ensures IsImmediate(directory, path) <==> IsChild(directory, path)
  {
    if IsImmediate(directory, path) {
      var n := |path.components| - 1;
      assert path.components == directory.components + [path.components[n]];
    }
  }
}
