/** Instance search: exact matches before substring matches, sorted, limited, with original ordinals. */
module Search {
  import opened Base
  import opened Sorting
  import opened Records
  import opened Manifests
  import opened Queries

  datatype Found = Found(ordinal: nat, record: InstanceRecord)

  datatype MatchKind = Exact | Substring

  datatype Results = Results(kind: MatchKind, total: nat, instances: seq<Found>)

  predicate StandsAt(text: Name, i: nat, query: Name) {
    i + |query| <= |text| && text[i..i + |query|] == query
  }

  predicate Contains(text: Name, query: Name) {
    exists i: nat :: i <= |text| && StandsAt(text, i, query)
  }

  /** Whether the query is, or occurs in, one of an instance's searchable names. */
  predicate Matches(kind: MatchKind, i: InstanceRecord, query: Name) {
    match kind
    case Exact => i.definition.definitionPath == query || i.displayName == query || i.rawSymbol == query
    case Substring =>
      Contains(i.definition.definitionPath, query) || Contains(i.displayName, query) || Contains(i.rawSymbol, query)
  }

  /** The matches among the first `n` instances, in manifest order. */
  function MatchesIn(kind: MatchKind, instances: seq<InstanceRecord>, query: Name, n: nat): seq<Found>
    requires n <= |instances|
  {
    if n == 0 then []
    else if Matches(kind, instances[n - 1], query) then
      MatchesIn(kind, instances, query, n - 1) + [Found(n - 1, instances[n - 1])]
    else MatchesIn(kind, instances, query, n - 1)
  }

  /** Display name, then definition path, then crate name, then raw symbol. */
  function NamesOf(i: Identity): seq<Name> {
    [i.displayName, i.definition.definitionPath, i.definition.crateName, i.rawSymbol]
  }

  predicate IdentityLeq(a: Identity, b: Identity) {
    NamesLeq(NamesOf(a), NamesOf(b))
  }

  predicate RecordLeq(a: InstanceRecord, b: InstanceRecord) {
    IdentityLeq(IdentityOf(a), IdentityOf(b))
  }

  predicate FoundLeq(a: Found, b: Found) {
    RecordLeq(a.record, b.record)
  }

  /** Exact matches if there are any, and otherwise the substring matches. */
  function KindFor(instances: seq<InstanceRecord>, query: Name): MatchKind {
    if MatchesIn(Exact, instances, query, |instances|) != [] then Exact else Substring
  }

  function SortedMatches(instances: seq<InstanceRecord>, query: Name): seq<Found> {
    Sort(FoundLeq, MatchesIn(KindFor(instances, query), instances, query, |instances|))
  }

  method Collect(kind: MatchKind, instances: seq<InstanceRecord>, query: Name) returns (found: seq<Found>)
    ensures found == MatchesIn(kind, instances, query, |instances|)
  {
    hide Matches;
    found := [];
    for ordinal := 0 to |instances|
      invariant found == MatchesIn(kind, instances, query, ordinal)
    {
      if Matches(kind, instances[ordinal], query) {
        found := found + [Found(ordinal, instances[ordinal])];
      }
    }
  }

  /** Finds instances of a manifest: the sorted matches of the better kind, up to the limit. */
  method FindInstances(m: InstanceManifest, query: Name, limit: nat) returns (r: Result<Results, Failure>)
    ensures r == if query == [] then Err(EmptyQuery)
                 else if limit == 0 then Err(InvalidLimit)
                 else
                   var sorted := SortedMatches(m.instances, query);
                   Ok(Results(KindFor(m.instances, query), |sorted|, sorted[..Min(limit, |sorted|)]))
  {
    if query == [] {
      return Err(EmptyQuery);
    }
    if limit == 0 {
      return Err(InvalidLimit);
    }
    var matches := Collect(Exact, m.instances, query);
    var kind := Exact;
    if matches == [] {
      matches := Collect(Substring, m.instances, query);
      kind := Substring;
    }
    var sorted := Sort(FoundLeq, matches);
    r := Ok(Results(kind, |sorted|, sorted[..Min(limit, |sorted|)]));
  }

  // ---- What a search returns ----

  lemma {:induction false} MatchesInMembers(kind: MatchKind, instances: seq<InstanceRecord>, query: Name, n: nat,
                                            f: Found)
    requires n <= |instances|
    ensures f in MatchesIn(kind, instances, query, n)
       <==> f.ordinal < n && instances[f.ordinal] == f.record && Matches(kind, f.record, query)
  {
    hide Matches;
    if n > 0 {
      MatchesInMembers(kind, instances, query, n - 1, f);
    }
  }

  lemma IdentityLeqIsAntisymmetric(a: Identity, b: Identity)
    requires IdentityLeq(a, b) && IdentityLeq(b, a)
    ensures a == b
  {
    NamesLeqAntisymmetric(NamesOf(a), NamesOf(b));
    assert NamesOf(a)[0] == NamesOf(b)[0] && NamesOf(a)[1] == NamesOf(b)[1];
    assert NamesOf(a)[2] == NamesOf(b)[2] && NamesOf(a)[3] == NamesOf(b)[3];
  }

  lemma OrdersAreTotal()
    ensures TotalOrder(RecordLeq) && TotalOrder(FoundLeq)
  {
    hide NamesLeq;
    forall a: InstanceRecord, b: InstanceRecord ensures RecordLeq(a, b) || RecordLeq(b, a) {
      NamesLeqTotal(NamesOf(IdentityOf(a)), NamesOf(IdentityOf(b)));
    }
    forall a: InstanceRecord, b: InstanceRecord, c: InstanceRecord | RecordLeq(a, b) && RecordLeq(b, c)
      ensures RecordLeq(a, c)
    {
      NamesLeqTransitive(NamesOf(IdentityOf(a)), NamesOf(IdentityOf(b)), NamesOf(IdentityOf(c)));
    }
  }

  lemma {:induction false} OrdinalsIncrease(kind: MatchKind, instances: seq<InstanceRecord>, query: Name, n: nat)
    requires n <= |instances|
    ensures Distinct(MatchesIn(kind, instances, query, n))
  {
    hide Matches;
    if n > 0 {
      OrdinalsIncrease(kind, instances, query, n - 1);
      var front := MatchesIn(kind, instances, query, n - 1);
      forall f | f in front ensures f.ordinal < n - 1 {
        MatchesInMembers(kind, instances, query, n - 1, f);
      }
    }
  }

  lemma SortedMatchesMatch(m: InstanceManifest, query: Name)
    ensures var kind, sorted := KindFor(m.instances, query), SortedMatches(m.instances, query);
            && Sorted(FoundLeq, sorted) && Distinct(sorted)
            && forall f :: f in sorted <==> Referenced(m, f.ordinal) == Ok(f.record) && Matches(kind, f.record, query)
    ensures KindFor(m.instances, query).Exact? <==> exists i :: i in m.instances && Matches(Exact, i, query)
  {
    hide Matches, MatchesIn;
    var instances, kind := m.instances, KindFor(m.instances, query);
    var found := MatchesIn(kind, instances, query, |instances|);
    OrdersAreTotal();
    SortSorts(FoundLeq, found);
    OrdinalsIncrease(kind, instances, query, |instances|);
    DistinctStays(found, Sort(FoundLeq, found));
    SameMembers(SortedMatches(instances, query), found);
    forall f ensures f in found <==> Referenced(m, f.ordinal) == Ok(f.record) && Matches(kind, f.record, query) {
      MatchesInMembers(kind, instances, query, |instances|, f);
    }
    var exact := MatchesIn(Exact, instances, query, |instances|);
    if exact != [] {
      MatchesInMembers(Exact, instances, query, |instances|, exact[0]);
    }
    if i :| i in instances && Matches(Exact, i, query) {
      var k :| 0 <= k < |instances| && instances[k] == i;
      MatchesInMembers(Exact, instances, query, |instances|, Found(k, i));
    }
  }

  /** The text is the query with something before and after it, or nothing. */
  ghost predicate Within(query: Name, text: Name) {
    exists before: Name, after: Name :: text == before + query + after
  }

  /** What a query must be to an instance: one of its three names, or a part of one. */
  ghost predicate Answers(kind: MatchKind, i: InstanceRecord, query: Name) {
    var names := [i.definition.definitionPath, i.displayName, i.rawSymbol];
    exists n :: n in names && if kind.Exact? then n == query else Within(query, n)
  }

  /** Display name, definition path, crate, and symbol: the first that differs decides. */
  ghost predicate Precedes(a: InstanceRecord, b: InstanceRecord) {
    if a.displayName != b.displayName then TextLess(a.displayName, b.displayName)
    else if a.definition.definitionPath != b.definition.definitionPath then
      TextLess(a.definition.definitionPath, b.definition.definitionPath)
    else if a.definition.crateName != b.definition.crateName then
      TextLess(a.definition.crateName, b.definition.crateName)
    else a.rawSymbol == b.rawSymbol || TextLess(a.rawSymbol, b.rawSymbol)
  }

  lemma ContainsIsWithin(text: Name, query: Name)
    ensures Contains(text, query) <==> Within(query, text)
  {
    if i: nat :| i <= |text| && StandsAt(text, i, query) {
      assert text == text[..i] + query + text[i + |query|..];
    }
    if before: Name, after: Name :| text == before + query + after {
      assert StandsAt(text, |before|, query);
    }
  }

  lemma MatchesAre(kind: MatchKind, i: InstanceRecord, query: Name)
    ensures Matches(kind, i, query) <==> Answers(kind, i, query)
  {
    hide Contains, Within;
    var names := [i.definition.definitionPath, i.displayName, i.rawSymbol];
    assert names[0] in names && names[1] in names && names[2] in names;
    forall n | n in names ensures Contains(n, query) <==> Within(query, n) {
      ContainsIsWithin(n, query);
    }
  }

  lemma FoundLeqPrecedes(a: Found, b: Found)
    ensures FoundLeq(a, b) <==> Precedes(a.record, b.record)
  {
    hide NamesLeq, TextLess;
    var x, y := IdentityOf(a.record), IdentityOf(b.record);
    var xs, ys := NamesOf(x), NamesOf(y);
    if x.displayName != y.displayName {
      NamesLeqAt(xs, ys, 0);
    } else if x.definition.definitionPath != y.definition.definitionPath {
      NamesLeqAt(xs, ys, 1);
    } else if x.definition.crateName != y.definition.crateName {
      NamesLeqAt(xs, ys, 2);
    } else if x.rawSymbol != y.rawSymbol {
      NamesLeqAt(xs, ys, 3);
    } else {
      NamesLeqTotal(xs, ys);
    }
  }

  /**
   The matches are exactly the instances that answer to the query, each under its own manifest ordinal,
   once each and in the order of their names. They answer exactly if any instance does.
   */
  lemma SortedMatchesAreTheMatches(m: InstanceManifest, query: Name)
    ensures var kind, sorted := KindFor(m.instances, query), SortedMatches(m.instances, query);
            && Distinct(sorted)
            && (forall i, j :: 0 <= i < j < |sorted| ==> Precedes(sorted[i].record, sorted[j].record))
            && forall f :: f in sorted <==>
                 && f.ordinal < |m.instances| && m.instances[f.ordinal] == f.record
                 && Answers(kind, f.record, query)
    ensures KindFor(m.instances, query).Exact? <==> exists i :: i in m.instances && Answers(Exact, i, query)
  {
    hide Matches, MatchesIn, KindFor, SortedMatches, FoundLeq, Precedes, Answers;
    var kind, sorted := KindFor(m.instances, query), SortedMatches(m.instances, query);
    SortedMatchesMatch(m, query);
    forall i, j | 0 <= i < j < |sorted| ensures Precedes(sorted[i].record, sorted[j].record) {
      FoundLeqPrecedes(sorted[i], sorted[j]);
    }
    forall i ensures Matches(kind, i, query) <==> Answers(kind, i, query) {
      MatchesAre(kind, i, query);
    }
    forall i ensures Matches(Exact, i, query) <==> Answers(Exact, i, query) {
      MatchesAre(Exact, i, query);
    }
  }

  function RecordsOf(found: seq<Found>): (r: seq<InstanceRecord>)
    ensures |r| == |found| && forall i :: 0 <= i < |r| ==> r[i] == found[i].record
  {
    seq(|found|, i requires 0 <= i < |found| => found[i].record)
  }

  lemma MatchedRecords(m: InstanceManifest, query: Name)
    requires Distinct(Identities(m.instances))
    ensures var records := RecordsOf(SortedMatches(m.instances, query));
            && Sorted(RecordLeq, records) && Distinct(records)
            && forall r :: r in records <==> r in m.instances && Matches(KindFor(m.instances, query), r, query)
  {
    hide Matches, MatchesIn, KindFor, SortedMatches, IdentityLeq;
    SortedMatchesMatch(m, query);
    var kind, sorted := KindFor(m.instances, query), SortedMatches(m.instances, query);
    var records := RecordsOf(sorted);
    forall i, j | 0 <= i < j < |records| ensures RecordLeq(records[i], records[j]) && records[i] != records[j] {
      assert FoundLeq(sorted[i], sorted[j]);
      assert sorted[i] in sorted && sorted[j] in sorted;
      TwoFound(m, sorted[i], sorted[j]);
    }
    forall r ensures r in records <==> r in m.instances && Matches(kind, r, query) {
      if r in records {
        var i :| 0 <= i < |records| && records[i] == r;
        assert sorted[i] in sorted;
      }
      if r in m.instances && Matches(kind, r, query) {
        var k :| 0 <= k < |m.instances| && m.instances[k] == r;
        assert Found(k, r) in sorted;
        var i :| 0 <= i < |sorted| && sorted[i] == Found(k, r);
        assert records[i] == r;
      }
    }
  }

  /** Two results are two records, because identities are distinct. */
  lemma TwoFound(m: InstanceManifest, a: Found, b: Found)
    requires Distinct(Identities(m.instances)) && a != b
    requires Referenced(m, a.ordinal) == Ok(a.record) && Referenced(m, b.ordinal) == Ok(b.record)
    ensures a.record != b.record
  {
    var identities := Identities(m.instances);
    assert identities[a.ordinal] == IdentityOf(a.record) && identities[b.ordinal] == IdentityOf(b.record);
  }

  lemma SameKind(m: InstanceManifest, other: InstanceManifest, query: Name)
    requires forall i :: i in m.instances <==> i in other.instances
    ensures KindFor(m.instances, query) == KindFor(other.instances, query)
  {
    hide Matches, MatchesIn, KindFor, SortedMatches, FoundLeq;
    SortedMatchesMatch(m, query);
    SortedMatchesMatch(other, query);
  }

  /** The sort fields are an instance's identity, so permuting a manifest changes only ordinals. */
  lemma ManifestOrderDoesNotMatter(m: InstanceManifest, other: InstanceManifest, query: Name)
    requires Distinct(Identities(m.instances)) && Distinct(Identities(other.instances))
    requires forall i :: i in m.instances <==> i in other.instances
    ensures KindFor(m.instances, query) == KindFor(other.instances, query)
    ensures RecordsOf(SortedMatches(m.instances, query)) == RecordsOf(SortedMatches(other.instances, query))
  {
    hide Matches, KindFor, SortedMatches, Identities, RecordLeq, RecordsOf, Sorted;
    SameKind(m, other, query);
    MatchedRecords(m, query);
    MatchedRecords(other, query);
    var xs, ys := RecordsOf(SortedMatches(m.instances, query)), RecordsOf(SortedMatches(other.instances, query));
    DistinctMultiset(xs);
    DistinctMultiset(ys);
    assert (set r | r in xs) == (set r | r in ys);
    NoTwoRanksTie(m, xs);
    SortedIsUnique(RecordLeq, xs, ys);
  }

  lemma NoTwoRanksTie(m: InstanceManifest, xs: seq<InstanceRecord>)
    requires Distinct(Identities(m.instances)) && forall x :: x in xs ==> x in m.instances
    ensures NoTies(RecordLeq, multiset(xs))
  {
    hide RecordLeq, Identities;
    var members := multiset(xs);
    forall a, b | a in members && b in members && RecordLeq(a, b) && RecordLeq(b, a) ensures a == b {
      EqualRanksAreEqual(m, a, b);
    }
  }

  lemma EqualRanksAreEqual(m: InstanceManifest, a: InstanceRecord, b: InstanceRecord)
    requires Distinct(Identities(m.instances)) && a in m.instances && b in m.instances
    requires RecordLeq(a, b) && RecordLeq(b, a)
    ensures a == b
  {
    hide IdentityLeq;
    IdentityLeqIsAntisymmetric(IdentityOf(a), IdentityOf(b));
    SameIdentity(m, a, b);
  }

  lemma SameIdentity(m: InstanceManifest, a: InstanceRecord, b: InstanceRecord)
    requires Distinct(Identities(m.instances)) && a in m.instances && b in m.instances && IdentityOf(a) == IdentityOf(b)
    ensures a == b
  {
    var i :| 0 <= i < |m.instances| && m.instances[i] == a;
    var j :| 0 <= j < |m.instances| && m.instances[j] == b;
    assert Identities(m.instances)[i] == Identities(m.instances)[j];
  }
}
