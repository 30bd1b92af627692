/** The passenger list of the booking modal and the effect that keeps it in
    step with the adult and infant counts: the list is rebuilt as the adults
    followed by the infants, each position reusing the passenger of the same
    kind and rank from the previous list. */
module Passengers {
  import opened Common

  datatype Kind = Adult | Infant

  /** A passenger entry; `files` stands for the attached documents, kept
      only as their names. */
  datatype Passenger = Passenger(kind: Kind, name: string, idNumber: string, files: seq<string>)

  /** `createEmptyPassenger`, of the given kind. */
  function Blank(k: Kind): Passenger {
    Passenger(k, "", "", [])
  }

  /** `prev.filter((p) => p.type === k)`. */
  function OfKind(ps: seq<Passenger>, k: Kind): (r: seq<Passenger>)
    ensures |r| <= |ps|
  {
    if |ps| == 0 then []
    else (if ps[0].kind == k then [ps[0]] else []) + OfKind(ps[1..], k)
  }

  /** The filter keeps only entries of the kind asked for. */
  lemma {:induction false} OfKindKinds(ps: seq<Passenger>, k: Kind)
    ensures forall i | 0 <= i < |OfKind(ps, k)| :: OfKind(ps, k)[i].kind == k
  {
    if |ps| > 0 {
      OfKindKinds(ps[1..], k);
      var head := if ps[0].kind == k then [ps[0]] else [];
      assert forall i | |head| <= i < |OfKind(ps, k)| :: OfKind(ps, k)[i] == OfKind(ps[1..], k)[i - |head|];
    }
  }

  lemma {:induction false} OfKindAppend(a: seq<Passenger>, b: seq<Passenger>, k: Kind)
    ensures OfKind(a + b, k) == OfKind(a, k) + OfKind(b, k)
  {
    if |a| > 0 {
      assert (a + b)[1..] == a[1..] + b;
      OfKindAppend(a[1..], b, k);
    } else {
      assert a + b == b;
    }
  }

  /** A list whose entries are all of kind `k` is its own filter. */
  lemma {:induction false} OfKindAll(ps: seq<Passenger>, k: Kind)
    requires forall i | 0 <= i < |ps| :: ps[i].kind == k
    ensures OfKind(ps, k) == ps
  {
    if |ps| > 0 {
      OfKindAll(ps[1..], k);
    }
  }

  /** A list with no entry of kind `k` filters to nothing. */
  lemma {:induction false} OfKindNone(ps: seq<Passenger>, k: Kind)
    requires forall i | 0 <= i < |ps| :: ps[i].kind != k
    ensures OfKind(ps, k) == []
  {
    if |ps| > 0 {
      OfKindNone(ps[1..], k);
    }
  }

  /** Every passenger is an adult or an infant. */
  lemma {:induction false} KindsPartition(ps: seq<Passenger>)
    ensures |OfKind(ps, Adult)| + |OfKind(ps, Infant)| == |ps|
  {
    if |ps| > 0 {
      KindsPartition(ps[1..]);
    }
  }

  /** The search in the effect, as written: the first entry at an index
      `idx` of kind `k` with exactly `i` entries of kind `k` before it. */
  function FindNth(ps: seq<Passenger>, k: Kind, i: nat, idx: nat): Option<Passenger>
    requires idx <= |ps|
    decreases |ps| - idx
  {
    if idx == |ps| then None
    else if ps[idx].kind == k && |OfKind(ps[..idx], k)| == i then Some(ps[idx])
    else FindNth(ps, k, i, idx + 1)
  }

  /** The `i`-th entry of kind `k`, when there is one. */
  function NthOfKind(ps: seq<Passenger>, k: Kind, i: nat): (r: Option<Passenger>)
    ensures r.Some? <==> i < |OfKind(ps, k)|
    ensures r.Some? ==> r.value == OfKind(ps, k)[i]
  {
    FindNthIsFilterIndex(ps, k, i, 0);
    FindNth(ps, k, i, 0)
  }

  /** Filtering a prefix one entry longer adds that entry's own filter. */
  lemma PrefixStep(ps: seq<Passenger>, k: Kind, idx: nat)
    requires idx < |ps|
    ensures OfKind(ps[..idx + 1], k) == OfKind(ps[..idx], k) + OfKind([ps[idx]], k)
    ensures OfKind(ps, k) == OfKind(ps[..idx + 1], k) + OfKind(ps[idx + 1..], k)
  {
    assert ps[..idx + 1] == ps[..idx] + [ps[idx]];
    OfKindAppend(ps[..idx], [ps[idx]], k);
    assert ps == ps[..idx + 1] + ps[idx + 1..];
    OfKindAppend(ps[..idx + 1], ps[idx + 1..], k);
  }

  /** The search finds the `i`-th element of the filtered list. */
  lemma {:induction false} FindNthIsFilterIndex(ps: seq<Passenger>, k: Kind, i: nat, idx: nat)
    requires idx <= |ps| && |OfKind(ps[..idx], k)| <= i
    ensures var r := FindNth(ps, k, i, idx);
      && (r.Some? <==> i < |OfKind(ps, k)|)
      && (r.Some? ==> r.value == OfKind(ps, k)[i])
    decreases |ps| - idx
  {
    if idx == |ps| {
      assert ps[..idx] == ps;
    } else {
      PrefixStep(ps, k, idx);
      if ps[idx].kind == k && |OfKind(ps[..idx], k)| == i {
        assert OfKind([ps[idx]], k) == [ps[idx]];
        assert OfKind(ps, k)[i] == ps[idx];
      } else {
        FindNthIsFilterIndex(ps, k, i, idx + 1);
      }
    }
  }

  /** The `n` entries of kind `k` after the sync: the previous entries of
      that kind in their order, padded with blank entries. */
  function Reused(prev: seq<Passenger>, k: Kind, n: nat): (r: seq<Passenger>)
    ensures |r| == n
    ensures forall i | 0 <= i < n :: r[i].kind == k
    ensures forall i | 0 <= i < n ::
      r[i] == if i < |OfKind(prev, k)| then OfKind(prev, k)[i] else Blank(k)
  {
    OfKindKinds(prev, k);
    seq(n, i requires 0 <= i < n => NthOfKind(prev, k, i).GetOr(Blank(k)))
  }

  /** The passenger-sync effect: the previous list when it already holds
      the right number of adults and infants, else the adults followed by
      the infants, reused in order. */
  function Sync(prev: seq<Passenger>, adults: nat, infants: nat): (r: seq<Passenger>)
    ensures |r| == adults + infants
    ensures OfKind(r, Adult) == Reused(prev, Adult, adults)
    ensures OfKind(r, Infant) == Reused(prev, Infant, infants)
    ensures r == prev || forall i | 0 <= i < |r| :: r[i].kind == (if i < adults then Adult else Infant)
  {
    if adults + infants == |prev| && |OfKind(prev, Adult)| == adults && |OfKind(prev, Infant)| == infants then
      ReusedAll(prev, Adult);
      ReusedAll(prev, Infant);
      prev
    else
      var a := Reused(prev, Adult, adults);
      var b := Reused(prev, Infant, infants);
      AdultsThenInfants(a, b);
      a + b
  }

  /** Reusing as many entries of a kind as the list holds gives them back. */
  lemma ReusedAll(prev: seq<Passenger>, k: Kind)
    ensures Reused(prev, k, |OfKind(prev, k)|) == OfKind(prev, k)
  {
  }

  /** A run of adults followed by a run of infants filters back into them. */
  lemma AdultsThenInfants(a: seq<Passenger>, b: seq<Passenger>)
    requires forall i | 0 <= i < |a| :: a[i].kind == Adult
    requires forall i | 0 <= i < |b| :: b[i].kind == Infant
    ensures OfKind(a + b, Adult) == a && OfKind(a + b, Infant) == b
  {
    OfKindAppend(a, b, Adult);
    OfKindAppend(a, b, Infant);
    OfKindAll(a, Adult);
    OfKindAll(b, Infant);
    OfKindNone(a, Infant);
    OfKindNone(b, Adult);
  }

  /** After one sync the counts match, so a second sync changes nothing. */
  lemma SyncSettles(prev: seq<Passenger>, adults: nat, infants: nat)
    ensures Sync(Sync(prev, adults, infants), adults, infants) == Sync(prev, adults, infants)
  {
  }

  /** A list that already has the right counts is kept as it is, whatever
      the order of its entries. */
  lemma SyncKeepsMatchingList(prev: seq<Passenger>)
    ensures Sync(prev, |OfKind(prev, Adult)|, |OfKind(prev, Infant)|) == prev
  {
    KindsPartition(prev);
  }
}
