/** The capture history that a listing shows, in whatever order the directory yields its entries. */
module Listings {
  import opened Base
  import opened Records
  import opened Sorting
  import opened Stores
  import opened Histories

  /** The records of the first `n` entries, or the first failure. */
  function Headers(s: State, entries: seq<Name>, n: nat): Result<seq<CaptureRecord>, Failure>
    requires n <= |entries|
  {
    if n == 0 then Ok([])
    else
      var front :- Headers(s, entries, n - 1);
      var capture :- ReadCapture(s, entries[n - 1]);
      Ok(front + [capture])
  }

  /** Latest completion first, then ascending ID. */
  predicate RecencyLeq(a: CaptureRecord, b: CaptureRecord) {
    if a.completedAt != b.completedAt then a.completedAt > b.completedAt else TextLeq(a.id, b.id)
  }

  function Listing(s: State, entries: seq<Name>): Result<seq<CaptureRecord>, Failure> {
    var captures :- Headers(s, entries, |entries|);
    Ok(Sort(RecencyLeq, captures))
  }

  lemma {:induction false} FirstFailureStands(s: State, entries: seq<Name>, i: nat, n: nat)
    requires i <= n <= |entries| && Headers(s, entries, i).Err?
    ensures Headers(s, entries, n) == Headers(s, entries, i)
    decreases n - i
  {
    hide ReadCapture;
    if i < n {
      FirstFailureStands(s, entries, i, n - 1);
    }
  }

  /** Reads each entry's header, stops at the first failure, and sorts. */
  method ListCaptures(store: Store, entries: seq<Name>) returns (r: Result<seq<CaptureRecord>, Failure>)
    ensures r == Listing(store.Current(), entries)
  {
    hide ReadCapture;
    var captures: seq<CaptureRecord> := [];
    for i := 0 to |entries|
      invariant Headers(store.Current(), entries, i) == Ok(captures)
    {
      var capture := ReadCapture(store.Current(), entries[i]);
      if capture.Err? {
        FirstFailureStands(store.Current(), entries, i + 1, |entries|);
        return Err(capture.error);
      }
      captures := captures + [capture.value];
    }
    r := Ok(Sort(RecencyLeq, captures));
  }

  // ---- Listings of reachable stores ----

  /** Some order of a directory's entries. */
  ghost predicate Enumerates(entries: seq<Name>, s: State) {
    Distinct(entries) && forall id :: id in entries <==> id in s.captures
  }

  lemma RecencyLeqIsTotal()
    ensures TotalOrder(RecencyLeq)
  {
    forall a: CaptureRecord, b: CaptureRecord ensures RecencyLeq(a, b) || RecencyLeq(b, a) {
      TextLeqTotal(a.id, b.id);
    }
    forall a: CaptureRecord, b: CaptureRecord, c: CaptureRecord | RecencyLeq(a, b) && RecencyLeq(b, c)
      ensures RecencyLeq(a, c)
    {
      if a.completedAt == b.completedAt == c.completedAt {
        TextLeqTransitive(a.id, b.id, c.id);
      }
    }
  }

  lemma WholeIsReadable(s: State, id: Name)
    requires Consistent(s) && id in s.captures
    ensures ReadCapture(s, id).Ok? && ReadCapture(s, id).value.id == id
  {
    assert Whole(id, s.captures[id]);
  }

  /** In a consistent store every entry has a record, at the entry's own position. */
  lemma {:induction false} HeadersSucceed(s: State, entries: seq<Name>, n: nat)
    requires Consistent(s) && n <= |entries| && forall id :: id in entries ==> id in s.captures
    ensures Headers(s, entries, n).Ok? && |Headers(s, entries, n).value| == n
    ensures forall i :: 0 <= i < n ==> ReadCapture(s, entries[i]) == Ok(Headers(s, entries, n).value[i])
  {
    hide ReadCapture, Consistent;
    if n > 0 {
      HeadersSucceed(s, entries, n - 1);
      WholeIsReadable(s, entries[n - 1]);
    }
  }

  lemma HeaderMembers(s: State, entries: seq<Name>, c: CaptureRecord)
    requires Consistent(s) && Enumerates(entries, s)
    ensures Headers(s, entries, |entries|).Ok?
    ensures c in Headers(s, entries, |entries|).value <==> c.id in s.captures && ReadCapture(s, c.id) == Ok(c)
  {
    hide ReadCapture, Consistent, Headers;
    HeadersSucceed(s, entries, |entries|);
    var captures := Headers(s, entries, |entries|).value;
    if c in captures {
      var i :| 0 <= i < |captures| && captures[i] == c;
      WholeIsReadable(s, entries[i]);
    }
    if c.id in s.captures && ReadCapture(s, c.id) == Ok(c) {
      var i :| 0 <= i < |entries| && entries[i] == c.id;
      assert captures[i] == c;
    }
  }

  lemma HeadersAreDistinct(s: State, entries: seq<Name>)
    requires Consistent(s) && Enumerates(entries, s)
    ensures Headers(s, entries, |entries|).Ok? && Distinct(Headers(s, entries, |entries|).value)
  {
    hide ReadCapture, Consistent, Headers;
    HeadersSucceed(s, entries, |entries|);
    forall i | 0 <= i < |entries| ensures Headers(s, entries, |entries|).value[i].id == entries[i] {
      WholeIsReadable(s, entries[i]);
    }
  }

  /** Later completions first, and captures of one moment by their IDs. */
  ghost predicate LatestFirst(cs: seq<CaptureRecord>) {
    forall i, j :: 0 <= i < j < |cs| ==>
      if cs[i].completedAt == cs[j].completedAt then TextLess(cs[i].id, cs[j].id)
      else cs[i].completedAt > cs[j].completedAt
  }

  lemma SortedIsLatestFirst(cs: seq<CaptureRecord>)
    requires Sorted(RecencyLeq, cs) && forall i, j :: 0 <= i < j < |cs| ==> cs[i].id != cs[j].id
    ensures LatestFirst(cs)
  {
    forall i, j | 0 <= i < j < |cs| && cs[i].completedAt == cs[j].completedAt ensures TextLess(cs[i].id, cs[j].id) {
      assert RecencyLeq(cs[i], cs[j]);
      TextLeqIsLess(cs[i].id, cs[j].id);
    }
  }

  lemma OneRecordEach(s: State, cs: seq<CaptureRecord>)
    requires Distinct(cs) && forall c :: c in cs ==> ReadCapture(s, c.id) == Ok(c)
    ensures forall i, j :: 0 <= i < j < |cs| ==> cs[i].id != cs[j].id
  {
    hide ReadCapture;
    forall i, j | 0 <= i < j < |cs| ensures cs[i].id != cs[j].id {
      assert cs[i] in cs && cs[j] in cs;
    }
  }

  /** The listing is sorted, holds exactly the completed captures, and ignores the directory's order. */
  lemma ListingIsCanonical(s: State, entries: seq<Name>, other: seq<Name>)
    requires Consistent(s) && Enumerates(entries, s) && Enumerates(other, s)
    ensures Listing(s, entries).Ok? && Listing(s, other) == Listing(s, entries)
    ensures LatestFirst(Listing(s, entries).value) && |Listing(s, entries).value| == |entries|
    ensures forall c :: c in Listing(s, entries).value <==> c.id in s.captures && ReadCapture(s, c.id) == Ok(c)
  {
    hide ReadCapture, Consistent, Headers, Enumerates;
    HeadersAreDistinct(s, entries);
    HeadersAreDistinct(s, other);
    var xs, ys := Headers(s, entries, |entries|).value, Headers(s, other, |other|).value;
    forall c ensures c in xs <==> c.id in s.captures && ReadCapture(s, c.id) == Ok(c) {
      HeaderMembers(s, entries, c);
    }
    forall c ensures c in xs <==> c in ys {
      HeaderMembers(s, entries, c);
      HeaderMembers(s, other, c);
    }
    HeadersCount(s, entries);
    SameMembers(Sort(RecencyLeq, xs), xs);
    NoTwoTie(xs, s);
    OneSortedOrder(xs, ys);
    DistinctStays(xs, Sort(RecencyLeq, xs));
    OneRecordEach(s, Sort(RecencyLeq, xs));
    SortedIsLatestFirst(Sort(RecencyLeq, xs));
  }

  lemma HeadersCount(s: State, entries: seq<Name>)
    requires Consistent(s) && Enumerates(entries, s)
    ensures Headers(s, entries, |entries|).Ok? && |Headers(s, entries, |entries|).value| == |entries|
  {
    HeadersSucceed(s, entries, |entries|);
  }

  lemma NoTwoTie(xs: seq<CaptureRecord>, s: State)
    requires forall c :: c in xs ==> c.id in s.captures && ReadCapture(s, c.id) == Ok(c)
    ensures NoTies(RecencyLeq, multiset(xs))
  {
    hide ReadCapture;
    forall a, b | a in multiset(xs) && b in multiset(xs) && RecencyLeq(a, b) && RecencyLeq(b, a) ensures a == b {
      assert a in xs && b in xs;
      TextLeqAntisymmetric(a.id, b.id);
    }
  }

  lemma OneSortedOrder(xs: seq<CaptureRecord>, ys: seq<CaptureRecord>)
    requires Distinct(xs) && Distinct(ys) && forall c :: c in xs <==> c in ys
    requires NoTies(RecencyLeq, multiset(xs))
    ensures Sort(RecencyLeq, xs) == Sort(RecencyLeq, ys) && Sorted(RecencyLeq, Sort(RecencyLeq, xs))
  {
    DistinctMultiset(xs);
    DistinctMultiset(ys);
    assert (set c | c in xs) == (set c | c in ys);
    RecencyLeqIsTotal();
    SortSorts(RecencyLeq, xs);
    SortSorts(RecencyLeq, ys);
    SortedIsUnique(RecencyLeq, Sort(RecencyLeq, xs), Sort(RecencyLeq, ys));
  }

  /** Over every run the listing succeeds and shows exactly the records that attempts committed. */
  lemma ListingIsHistory(attempts: seq<Attempt>, n: nat, entries: seq<Name>, c: CaptureRecord)
    requires Possible(attempts) && n <= |attempts| && Enumerates(entries, Run(attempts, n))
    ensures Listing(Run(attempts, n), entries).Ok?
    ensures c in Listing(Run(attempts, n), entries).value
       <==> exists i: nat :: i < n && attempts[i].reached.Committed? && attempts[i].publication.capture.record == c
  {
    var s := Run(attempts, n);
    EveryRunIsConsistent(attempts, n);
    hide ReadCapture, Consistent, Headers, Enumerates, Run, Possible, Listing;
    ListingIsCanonical(s, entries, entries);
    CapturesAreCommitted(attempts, n, c.id);
    if c in Listing(s, entries).value {
      var i: nat :| i < n && Completes(attempts, i, c.id);
      CommittedIsReadable(attempts, i, n);
    }
    if i: nat :| i < n && attempts[i].reached.Committed? && attempts[i].publication.capture.record == c {
      assert Completes(attempts, i, c.id);
      CommittedIsReadable(attempts, i, n);
    }
  }
}
