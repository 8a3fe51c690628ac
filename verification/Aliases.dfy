/**
 Resolution of a raw symbol within one module. Direct aliases form a chain; the chain's end, or its
 lack of one, determines the result.
 */
module Aliases {
  import opened Base
  import opened Records
  import IndexRecords

  type Definitions = map<Name, IndexRecords.Definition>

  /** The symbol that a direct alias names. */
  function Next(ds: Definitions, symbol: Name): Option<Name> {
    if symbol in ds && ds[symbol].kind.DirectAlias? then Some(ds[symbol].kind.target) else None
  }

  /** The symbol after a number of alias steps, if the chain is that long. */
  function Walk(ds: Definitions, symbol: Name, steps: nat): Option<Name> {
    if steps == 0 then Some(symbol)
    else
      var before := Walk(ds, symbol, steps - 1);
      if before.None? then None else Next(ds, before.value)
  }

  ghost predicate Endless(ds: Definitions, symbol: Name) {
    forall n: nat :: Walk(ds, symbol, n).Some?
  }

  /** The chain ends after exactly this many steps. */
  ghost predicate EndsAfter(ds: Definitions, symbol: Name, steps: nat) {
    Walk(ds, symbol, steps).Some? && Next(ds, Walk(ds, symbol, steps).value).None?
  }

  function Path(ds: Definitions, symbol: Name, steps: nat): (path: seq<Name>)
    requires Walk(ds, symbol, steps).Some?
    ensures |path| == steps
    ensures forall i :: 0 <= i < steps ==> Walk(ds, symbol, i) == Some(path[i])
  {
    if steps == 0 then [] else Path(ds, symbol, steps - 1) + [Walk(ds, symbol, steps - 1).value]
  }

  datatype Resolution =
    | Body(definition: IndexRecords.Definition, aliases: seq<Name>)
    | NoExactDefinition
    | UnsupportedAlias
    | AliasCycle

  /** What the end of a chain means. */
  function AtEnd(ds: Definitions, symbol: Name, aliases: seq<Name>): Resolution {
    if symbol !in ds then NoExactDefinition
    else if ds[symbol].kind.Function? then Body(ds[symbol], aliases)
    else UnsupportedAlias
  }

  /** The declarative result: a cycle for an endless chain, and otherwise what stands at its end. */
  ghost predicate Resolves(ds: Definitions, symbol: Name, r: Resolution) {
    if Endless(ds, symbol) then r == AliasCycle
    else exists n: nat :: EndsAfter(ds, symbol, n) && r == AtEnd(ds, Walk(ds, symbol, n).value, Path(ds, symbol, n))
  }

  lemma {:induction false} WalkBefore(ds: Definitions, symbol: Name, n: nat, m: nat)
    requires m <= n && Walk(ds, symbol, n).Some?
    ensures Walk(ds, symbol, m).Some?
    ensures m < n ==> Next(ds, Walk(ds, symbol, m).value).Some?
    decreases n
  {
    if m < n {
      WalkBefore(ds, symbol, n - 1, m);
    }
  }

  lemma EndsOnce(ds: Definitions, symbol: Name, n: nat, m: nat)
    requires EndsAfter(ds, symbol, n) && EndsAfter(ds, symbol, m)
    ensures n == m
  {
    if n < m {
      WalkBefore(ds, symbol, m, n);
    } else if m < n {
      WalkBefore(ds, symbol, n, m);
    }
  }

  /** A chain has only one result. */
  lemma ResolvesOnce(ds: Definitions, symbol: Name, r: Resolution, q: Resolution)
    requires Resolves(ds, symbol, r) && Resolves(ds, symbol, q)
    ensures r == q
  {
    if !Endless(ds, symbol) {
      var n: nat :| EndsAfter(ds, symbol, n) && r == AtEnd(ds, Walk(ds, symbol, n).value, Path(ds, symbol, n));
      var m: nat :| EndsAfter(ds, symbol, m) && q == AtEnd(ds, Walk(ds, symbol, m).value, Path(ds, symbol, m));
      EndsOnce(ds, symbol, n, m);
    }
  }

  lemma {:induction false} WalkRepeats(ds: Definitions, symbol: Name, j: nat, n: nat, k: nat)
    requires j < n && Walk(ds, symbol, n).Some? && Walk(ds, symbol, j) == Walk(ds, symbol, n)
    ensures Walk(ds, symbol, k).Some?
    ensures k >= n ==> Walk(ds, symbol, k) == Walk(ds, symbol, k - (n - j))
    decreases k
  {
    if k < n {
      WalkBefore(ds, symbol, n, k);
    } else if k > n {
      WalkRepeats(ds, symbol, j, n, k - 1);
      WalkRepeats(ds, symbol, j, n, k - (n - j));
      assert Walk(ds, symbol, k - 1) == Walk(ds, symbol, k - 1 - (n - j));
    }
  }

  /** A revisited symbol makes the chain endless. */
  lemma RevisitIsEndless(ds: Definitions, symbol: Name, j: nat, n: nat)
    requires j < n && Walk(ds, symbol, n).Some? && Walk(ds, symbol, j) == Walk(ds, symbol, n)
    ensures Endless(ds, symbol)
  {
    forall k: nat ensures Walk(ds, symbol, k).Some? {
      WalkRepeats(ds, symbol, j, n, k);
    }
  }

  lemma EndIsNotEndless(ds: Definitions, symbol: Name, n: nat)
    requires EndsAfter(ds, symbol, n)
    ensures !Endless(ds, symbol)
  {
    assert Walk(ds, symbol, n + 1).None?;
  }

  /** The same path, built from its front as the loop builds it. */
  lemma {:induction false} PathIsUnique(ds: Definitions, symbol: Name, path: seq<Name>)
    requires Walk(ds, symbol, |path|).Some?
    requires forall i :: 0 <= i < |path| ==> Walk(ds, symbol, i) == Some(path[i])
    ensures path == Path(ds, symbol, |path|)
  {
  }

  /** The loop has followed the aliases from the raw symbol and stands at `symbol`. */
  ghost predicate Followed(ds: Definitions, rawSymbol: Name, aliases: seq<Name>, symbol: Name) {
    && Walk(ds, rawSymbol, |aliases|) == Some(symbol)
    && forall i :: 0 <= i < |aliases| ==> Walk(ds, rawSymbol, i) == Some(aliases[i])
  }

  lemma FollowsOn(ds: Definitions, rawSymbol: Name, aliases: seq<Name>, symbol: Name)
    requires Followed(ds, rawSymbol, aliases, symbol) && Next(ds, symbol).Some?
    ensures Followed(ds, rawSymbol, aliases + [symbol], Next(ds, symbol).value)
  {
  }

  lemma EndResolves(ds: Definitions, rawSymbol: Name, aliases: seq<Name>, symbol: Name)
    requires Followed(ds, rawSymbol, aliases, symbol) && Next(ds, symbol).None?
    ensures Resolves(ds, rawSymbol, AtEnd(ds, symbol, aliases))
  {
    PathIsUnique(ds, rawSymbol, aliases);
    EndIsNotEndless(ds, rawSymbol, |aliases|);
    assert EndsAfter(ds, rawSymbol, |aliases|);
  }

  /** Follows direct aliases until the chain ends or revisits a symbol. */
  method Resolve(ds: Definitions, rawSymbol: Name) returns (r: Resolution)
    ensures Resolves(ds, rawSymbol, r)
  {
    var visited: set<Name> := {};
    var aliases: seq<Name> := [];
    var symbol := rawSymbol;
    while true
      invariant Followed(ds, rawSymbol, aliases, symbol)
      invariant forall a :: a in visited <==> a in aliases
      invariant visited <= ds.Keys
      decreases |ds.Keys - visited|
    {
      if symbol in visited {
        var j :| 0 <= j < |aliases| && aliases[j] == symbol;
        RevisitIsEndless(ds, rawSymbol, j, |aliases|);
        return AliasCycle;
      }
      hide Walk, Endless, EndsAfter, Followed, Resolves;
      if symbol !in ds || !ds[symbol].kind.DirectAlias? {
        EndResolves(ds, rawSymbol, aliases, symbol);
        return AtEnd(ds, symbol, aliases);
      }
      ghost var left := ds.Keys - visited;
      FollowsOn(ds, rawSymbol, aliases, symbol);
      visited := visited + {symbol};
      assert ds.Keys - visited == left - {symbol};
      aliases := aliases + [symbol];
      symbol := ds[symbol].kind.target;
    }
  }
}
