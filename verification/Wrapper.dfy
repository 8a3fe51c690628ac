/** The compiler wrapper: which invocations it forwards, stops, or analyzes, and with which arguments. */
module Wrapper {
  import opened Base
  import Protocol
  import Utf8
  import Wire

  type Name = seq<byte>

  const MARKER_PREFIX: Name := Text("--cfg=cargo_optic_selected_target=")
  const CRATE_NAME_FLAG: Name := Text("--crate-name")
  const PROBE: Name := Text("probe")
  const COLLECT: Name := Text("collect")

  /** The variables that the collector sets, the existing files, and whether the receipt can be written. */
  datatype Environment = Environment(
    marker: Option<Name>,
    mode: Option<Name>,
    compiler: Option<Name>,
    source: Option<Name>,
    crateName: Option<Name>,
    receipt: Option<Name>,
    receiptWritable: bool,
    canonical: map<Name, Name>)

  datatype Route =
    | Failed
    | Forward(program: Name, arguments: seq<Name>)
    | Stopped(receipt: seq<byte>)
    | Analyze(arguments: seq<Name>)

  predicate IsAnalysisMarker(argument: Name) {
    MARKER_PREFIX <= argument
  }

  /** The header that binds a manifest or a receipt to a marker. */
  function Header(marker: Name): seq<byte> {
    Wire.EncodeRow(Protocol.HeaderRow(marker, Wire.End))
  }

  function Markers(arguments: seq<Name>, n: nat): (count: nat)
    requires n <= |arguments|
    ensures count <= n
  {
    if n == 0 then 0 else Markers(arguments, n - 1) + if IsAnalysisMarker(arguments[n - 1]) then 1 else 0
  }

  /** The first crate-name flag from `i` on stands at `k`, with the name after it. */
  ghost predicate Flags(arguments: seq<Name>, i: nat, k: nat, name: Name) {
    && i <= k < |arguments| - 1 && arguments[k] == Text("--crate-name") && arguments[k + 1] == name
    && forall j :: i <= j < k ==> arguments[j] != Text("--crate-name")
  }

  /** The argument after the first crate-name flag that has one. */
  function CrateNameFrom(arguments: seq<Name>, i: nat): (r: Option<Name>)
    ensures r.None? <==> forall k :: i <= k < |arguments| - 1 ==> arguments[k] != Text("--crate-name")
    ensures r.Some? ==> exists k: nat :: Flags(arguments, i, k, r.value)
    decreases |arguments| - i
  {
    if i + 1 >= |arguments| then None
    else if arguments[i] == CRATE_NAME_FLAG then
      assert Flags(arguments, i, i, arguments[i + 1]);
      Some(arguments[i + 1])
    else
      var r := CrateNameFrom(arguments, i + 1);
      assert r.Some? ==> exists k: nat :: Flags(arguments, i, k, r.value) by {
        if r.Some? {
          var k: nat :| Flags(arguments, i + 1, k, r.value);
          assert Flags(arguments, i, k, r.value);
        }
      }
      r
  }

  predicate NamesSource(argument: Name, source: Name, canonical: map<Name, Name>) {
    !(argument != [] && argument[0] == '-' as byte) && argument in canonical && canonical[argument] == source
  }

  /** The invocation is the prepared target's: one marker, compiler, crate name, and source all agree. */
  ghost predicate IsSelected(arguments: seq<Name>, marker: Name, env: Environment) {
    && env.compiler.Some? && env.source.Some? && env.crateName.Some?
    && marker in arguments && HasOneMarker(arguments)
    && arguments[0] == env.compiler.value
    && CrateNameFrom(arguments, 0) == env.crateName
    && exists i :: 1 <= i < |arguments| && IsSource(arguments[i], env.source.value, env.canonical)
  }

  /** One argument selects a target, and no other. */
  ghost predicate HasOneMarker(arguments: seq<Name>) {
    exists k :: 0 <= k < |arguments| && Text("--cfg=cargo_optic_selected_target=") <= arguments[k]
                && forall j :: 0 <= j < |arguments| && j != k ==>
                     !(Text("--cfg=cargo_optic_selected_target=") <= arguments[j])
  }

  /** An argument that is no option, and leads to the source file. */
  ghost predicate IsSource(argument: Name, source: Name, canonical: map<Name, Name>) {
    !(Text("-") <= argument) && argument in canonical && canonical[argument] == source
  }

  ghost predicate IsForwarded(arguments: seq<Name>, env: Environment) {
    && arguments != [] && env.marker.Some? && env.marker.value !in arguments
    && forall a :: a in arguments ==> !(Text("--cfg=cargo_optic_selected_target=") <= a)
  }

  lemma {:induction false} NoMarkers(arguments: seq<Name>, n: nat)
    requires n <= |arguments|
    ensures Markers(arguments, n) == 0 <==> forall i :: 0 <= i < n ==> !IsAnalysisMarker(arguments[i])
  {
    if n > 0 {
      NoMarkers(arguments, n - 1);
    }
  }

  lemma {:induction false} OneMarker(arguments: seq<Name>, n: nat)
    requires n <= |arguments|
    ensures Markers(arguments, n) == 1 <==>
              exists k :: 0 <= k < n && IsAnalysisMarker(arguments[k])
                          && forall j :: 0 <= j < n && j != k ==> !IsAnalysisMarker(arguments[j])
  {
    hide IsAnalysisMarker;
    if n > 0 {
      NoMarkers(arguments, n - 1);
      OneMarker(arguments, n - 1);
    }
  }

  lemma MarkersAreOne(arguments: seq<Name>)
    ensures Markers(arguments, |arguments|) == 1 <==> HasOneMarker(arguments)
  {
    OneMarker(arguments, |arguments|);
  }

  lemma OnlyMarker(arguments: seq<Name>, i: nat)
    requires HasOneMarker(arguments) && i < |arguments| && IsAnalysisMarker(arguments[i])
    ensures forall k :: 0 <= k < |arguments| && k != i ==> !IsAnalysisMarker(arguments[k])
  {
  }

  method VerifySelected(arguments: seq<Name>, marker: Name, env: Environment) returns (ok: bool)
    requires arguments != []
    ensures ok <==> IsSelected(arguments, marker, env)
  {
    hide IsAnalysisMarker, HasOneMarker;
    if env.compiler.None? || env.source.None? || env.crateName.None? {
      return false;
    }
    var markers := 0;
    for i := 0 to |arguments|
      invariant markers == Markers(arguments, i)
    {
      if IsAnalysisMarker(arguments[i]) {
        markers := markers + 1;
      }
    }
    MarkersAreOne(arguments);
    if markers != 1 || marker !in arguments {
      return false;
    }
    if arguments[0] != env.compiler.value {
      return false;
    }
    var i := 0;
    while i + 1 < |arguments| && arguments[i] != CRATE_NAME_FLAG
      invariant CrateNameFrom(arguments, 0) == CrateNameFrom(arguments, i)
      decreases |arguments| - i
    {
      i := i + 1;
    }
    var actualName := if i + 1 < |arguments| then Some(arguments[i + 1]) else None;
    if actualName != env.crateName {
      return false;
    }
    assert forall a :: NamesSource(a, env.source.value, env.canonical) == IsSource(a, env.source.value, env.canonical);
    ok := exists k :: 1 <= k < |arguments| && NamesSource(arguments[k], env.source.value, env.canonical);
  }

  /** The position of the first occurrence. */
  method Position(arguments: seq<Name>, marker: Name) returns (r: Option<nat>)
    ensures r.None? <==> marker !in arguments
    ensures r.Some? ==> r.value < |arguments| && arguments[r.value] == marker && marker !in arguments[..r.value]
  {
    for i := 0 to |arguments|
      invariant marker !in arguments[..i]
    {
      if arguments[i] == marker {
        return Some(i);
      }
    }
    r := None;
  }

  /** The arguments without the one at a position. */
  function Without(arguments: seq<Name>, i: nat): seq<Name>
    requires i < |arguments|
  {
    arguments[..i] + arguments[i + 1..]
  }

  /** The only marker's position is removed, and the rest keeps its order. */
  ghost predicate Strips(arguments: seq<Name>, marker: Name, stripped: seq<Name>) {
    exists i :: 0 <= i < |arguments| && arguments[i] == marker && marker !in arguments[..i]
                && stripped == Without(arguments, i)
  }

  /** Decides one invocation. Probe mode never analyzes, and only collection strips the marker. */
  method Run(arguments: seq<Name>, env: Environment) returns (route: Route)
    ensures route.Forward? <==> IsForwarded(arguments, env)
    ensures route.Forward? ==> arguments == [route.program] + route.arguments
    ensures route.Analyze? <==>
              && env.marker.Some? && IsSelected(arguments, env.marker.value, env) && env.mode == Some(COLLECT)
    ensures route.Analyze? ==> Strips(arguments, env.marker.value, route.arguments)
    ensures route.Stopped? <==>
              && env.marker.Some? && IsSelected(arguments, env.marker.value, env) && env.mode == Some(PROBE)
              && env.receipt.Some? && Utf8.IsUtf8(env.marker.value) && env.receiptWritable
    ensures route.Stopped? ==> route.receipt == Header(env.marker.value)
  {
    assert PROBE[0] != COLLECT[0];
    if arguments == [] || env.marker.None? {
      return Failed;
    }
    var marker := env.marker.value;
    var selected := Position(arguments, marker);
    if selected.None? {
      if exists a :: a in arguments && IsAnalysisMarker(a) {
        return Failed;
      }
      return Forward(arguments[0], arguments[1..]);
    }
    var verified := VerifySelected(arguments, marker, env);
    if !verified {
      return Failed;
    }
    if env.mode == Some(PROBE) {
      if env.receipt.None? || !Utf8.IsUtf8(marker) || !env.receiptWritable {
        return Failed;
      }
      return Stopped(Header(marker));
    }
    if env.mode != Some(COLLECT) {
      return Failed;
    }
    assert Strips(arguments, marker, Without(arguments, selected.value));
    route := Analyze(Without(arguments, selected.value));
  }

  /**
   An analyzed invocation reaches the inner driver with the prepared compiler first, with no marker,
   and otherwise unchanged: putting the marker back gives the original arguments.
   */
  lemma AnalysisArguments(arguments: seq<Name>, marker: Name, env: Environment, stripped: seq<Name>)
    requires IsAnalysisMarker(marker) && IsSelected(arguments, marker, env) && Strips(arguments, marker, stripped)
    requires !IsAnalysisMarker(env.compiler.value)
    ensures forall a :: a in stripped ==> !IsAnalysisMarker(a)
    ensures |stripped| + 1 == |arguments| && stripped != [] && stripped[0] == env.compiler.value
    ensures exists i :: 0 < i <= |stripped| && arguments == stripped[..i] + [marker] + stripped[i..]
  {
    hide IsAnalysisMarker, HasOneMarker, CrateNameFrom, IsSource, Without;
    var i :| 0 <= i < |arguments| && arguments[i] == marker && marker !in arguments[..i]
      && stripped == Without(arguments, i);
    OnlyMarker(arguments, i);
    assert arguments[0] == env.compiler.value && i > 0;
    WithoutOne(arguments, i);
  }

  lemma WithoutOne(arguments: seq<Name>, i: nat)
    requires i < |arguments|
    ensures var rest := Without(arguments, i);
            && |rest| == |arguments| - 1 && arguments == rest[..i] + [arguments[i]] + rest[i..]
            && (i > 0 ==> rest[0] == arguments[0])
            && forall a :: a in rest ==> exists k :: 0 <= k < |arguments| && k != i && arguments[k] == a
  {
    var rest := Without(arguments, i);
    assert rest[..i] == arguments[..i] && rest[i..] == arguments[i + 1..];
  }
}
