/** The booking modal's seat selection as a state machine: seat clicks, the
    pruning that follows a change of the adult count, and the pruning that
    follows a reload of the seat list. Together they keep the selection free
    of duplicates, drawn from the loaded seats and no longer than the number
    of adults. */
module Selection {
  import opened Common
  import opened Uuid
  import opened Seats

  predicate NoDuplicates(sel: seq<string>) {
    forall i, j | 0 <= i < j < |sel| :: sel[i] != sel[j]
  }

  /** The selection invariant. */
  predicate Valid(sel: seq<string>, seats: seq<Seat>, adults: nat) {
    && NoDuplicates(sel)
    && (forall i | 0 <= i < |sel| :: sel[i] in Ids(seats))
    && |sel| <= adults
  }

  /** `prev.filter(keep)`. */
  function Keep(sel: seq<string>, keep: string -> bool): (r: seq<string>)
    ensures |r| <= |sel|
    ensures forall x :: x in r <==> x in sel && keep(x)
  {
    if |sel| == 0 then []
    else if keep(sel[0]) then [sel[0]] + Keep(sel[1..], keep)
    else Keep(sel[1..], keep)
  }

  /** Filtering never introduces a duplicate. */
  lemma {:induction false} KeepNoDuplicates(sel: seq<string>, keep: string -> bool)
    requires NoDuplicates(sel)
    ensures NoDuplicates(Keep(sel, keep))
  {
    if |sel| > 0 {
      var tail := sel[1..];
      assert NoDuplicates(tail) by {
        forall i, j | 0 <= i < j < |tail| ensures tail[i] != tail[j] {
          assert tail[i] == sel[i + 1] && tail[j] == sel[j + 1];
        }
      }
      KeepNoDuplicates(tail, keep);
      if keep(sel[0]) {
        var rest := Keep(tail, keep);
        assert sel[0] !in tail;
        assert sel[0] !in rest;
        var r := [sel[0]] + rest;
        forall i, j | 0 <= i < j < |r| ensures r[i] != r[j] {
          if i == 0 {
            assert r[j] == rest[j - 1];
          } else {
            assert r[i] == rest[i - 1] && r[j] == rest[j - 1];
          }
        }
      }
    }
  }

  /** A filter that rejects every id gives the empty selection. */
  lemma {:induction false} KeepNothing(sel: seq<string>, keep: string -> bool)
    requires forall i | 0 <= i < |sel| :: !keep(sel[i])
    ensures Keep(sel, keep) == []
  {
    if |sel| > 0 {
      assert forall i | 0 <= i < |sel| - 1 :: sel[1..][i] == sel[i + 1];
      KeepNothing(sel[1..], keep);
    }
  }

  /** Removing an id that was appended to a selection without it gives the
      selection back. */
  lemma {:induction false} KeepDropsAppended(sel: seq<string>, id: string)
    requires id !in sel
    ensures Keep(sel + [id], x => x != id) == sel
  {
    if |sel| == 0 {
      assert [id][1..] == [];
    } else {
      assert (sel + [id])[1..] == sel[1..] + [id];
      KeepDropsAppended(sel[1..], id);
      assert sel == [sel[0]] + sel[1..];
    }
  }

  /** A click on `id` takes effect when the id names a loaded, available seat
      and has the UUID shape. */
  predicate Clickable(seats: seq<Seat>, id: string) {
    match FindSeat(seats, id)
    case None => false
    case Some(s) => s.isAvailable && IsValidUuid(id)
  }

  /** `handleSeatClick`: an ineffective click changes nothing; a click on a
      selected seat deselects it; a click on another seat selects it while
      fewer seats than adults are selected. */
  function Click(sel: seq<string>, seats: seq<Seat>, adults: nat, id: string): (r: seq<string>)
    ensures forall x | x != id :: x in r <==> x in sel
    ensures id in r <==> if Clickable(seats, id) then id !in sel && |sel| < adults else id in sel
    ensures id !in sel && id in r ==> r == sel + [id]
    ensures |r| <= |sel| + 1
  {
    if !Clickable(seats, id) then sel
    else if id in sel then Keep(sel, x => x != id)
    else if |sel| < adults then sel + [id]
    else sel
  }

  lemma ClickPreserves(sel: seq<string>, seats: seq<Seat>, adults: nat, id: string)
    requires Valid(sel, seats, adults)
    ensures Valid(Click(sel, seats, adults, id), seats, adults)
  {
    var r := Click(sel, seats, adults, id);
    if Clickable(seats, id) {
      if id in sel {
        KeepNoDuplicates(sel, x => x != id);
        assert forall i | 0 <= i < |r| :: r[i] in sel;
      } else if |sel| < adults {
        assert id in Ids(seats);
        forall i, j | 0 <= i < j < |r| ensures r[i] != r[j] {
          if j == |sel| { assert r[i] == sel[i]; }
        }
      }
    }
  }

  /** Selecting a seat and clicking it again restores the selection. */
  lemma ClickTwiceRestores(sel: seq<string>, seats: seq<Seat>, adults: nat, id: string)
    requires Clickable(seats, id) && id !in sel && |sel| < adults
    ensures Click(Click(sel, seats, adults, id), seats, adults, id) == sel
  {
    KeepDropsAppended(sel, id);
  }

  /** The effect on a change of the adult count to `n`: an over-long
      selection is cut to its first `n` ids, and a non-empty selection
      shorter than `n` is cleared so that the user selects again. */
  function AdultsChanged(sel: seq<string>, n: nat): (r: seq<string>)
    ensures |r| <= n || r == sel
    ensures |r| <= |sel| && r == sel[..|r|]
    ensures r == sel <==> |sel| == 0 || |sel| == n
    ensures r != sel ==> |r| == if |sel| > n then n else 0
  {
    if |sel| > n then sel[..n]
    else if 0 < |sel| < n then []
    else sel
  }

  lemma AdultsChangedPreserves(sel: seq<string>, seats: seq<Seat>, adults: nat, n: nat)
    requires Valid(sel, seats, adults)
    ensures Valid(AdultsChanged(sel, n), seats, n)
  {
    var r := AdultsChanged(sel, n);
    assert forall i | 0 <= i < |r| :: r[i] == sel[i];
  }

  /** The effect on a reload of the seat list: an empty list clears the
      selection, otherwise only ids still present are kept. */
  function SeatsReloaded(sel: seq<string>, seats: seq<Seat>): (r: seq<string>)
    ensures forall x :: x in r <==> x in sel && x in Ids(seats)
    ensures |r| <= |sel|
  {
    if |seats| == 0 then []
    else Keep(sel, x => x in Ids(seats))
  }

  /** Clearing on an empty list is what the filter alone would do. */
  lemma ReloadIsFilter(sel: seq<string>, seats: seq<Seat>)
    ensures SeatsReloaded(sel, seats) == Keep(sel, x => x in Ids(seats))
  {
    if |seats| == 0 {
      assert Ids(seats) == {};
      KeepNothing(sel, x => x in Ids(seats));
    }
  }

  /** A reload restores the invariant for any prior selection that was
      duplicate-free and within the adult count, even one drawn from the old
      seat list. */
  lemma SeatsReloadedPreserves(sel: seq<string>, seats: seq<Seat>, adults: nat)
    requires NoDuplicates(sel) && |sel| <= adults
    ensures Valid(SeatsReloaded(sel, seats), seats, adults)
  {
    var r := SeatsReloaded(sel, seats);
    ReloadIsFilter(sel, seats);
    KeepNoDuplicates(sel, x => x in Ids(seats));
    assert forall i | 0 <= i < |r| :: r[i] in r;
  }

  /** The modal's selection-relevant state. */
  datatype State = State(seats: seq<Seat>, adults: nat, selected: seq<string>)

  /** The user's and the backend's inputs: a seat click, a new adult count,
      and a seat map loaded into the seat list. */
  datatype Event = ClickSeat(id: string) | SetAdults(n: nat) | LoadSeats(raws: seq<RawSeat>)

  function Step(st: State, e: Event): (r: State)
    ensures e.ClickSeat? ==> r.seats == st.seats && r.adults == st.adults
    ensures e.SetAdults? ==> r.seats == st.seats && r.adults == e.n
    ensures e.SetAdults? && e.n == st.adults ==> r == st
    ensures e.LoadSeats? ==> r.seats == NormalizeSeats(e.raws) && r.adults == st.adults
  {
    match e
    case ClickSeat(id) => st.(selected := Click(st.selected, st.seats, st.adults, id))
    case SetAdults(n) =>
      // the pruning effect depends on the adult count alone, so re-entering
      // the same count does not run it
      if n == st.adults then st else State(st.seats, n, AdultsChanged(st.selected, n))
    case LoadSeats(raws) =>
      var seats := NormalizeSeats(raws);
      State(seats, st.adults, SeatsReloaded(st.selected, seats))
  }

  function Run(st: State, es: seq<Event>): State
    decreases |es|
  {
    if |es| == 0 then st else Run(Step(st, es[0]), es[1..])
  }

  /** The selection invariant, and every loaded seat came through
      normalisation. */
  predicate ValidState(st: State) {
    && Valid(st.selected, st.seats, st.adults)
    && forall s | s in st.seats :: IsValidUuid(s.id)
  }

  /** In a valid state every selected id has the UUID shape. */
  lemma SelectedIdsAreUuids(st: State)
    requires ValidState(st)
    ensures forall i | 0 <= i < |st.selected| :: IsValidUuid(st.selected[i])
  {
    forall i | 0 <= i < |st.selected| ensures IsValidUuid(st.selected[i]) {
      assert st.selected[i] in Ids(st.seats);
      var s :| s in st.seats && s.id == st.selected[i];
    }
  }

  lemma StepPreserves(st: State, e: Event)
    requires ValidState(st)
    ensures ValidState(Step(st, e))
  {
    match e
    case ClickSeat(id) => ClickPreserves(st.selected, st.seats, st.adults, id);
    case SetAdults(n) =>
      if n != st.adults { AdultsChangedPreserves(st.selected, st.seats, st.adults, n); }
    case LoadSeats(raws) => SeatsReloadedPreserves(st.selected, NormalizeSeats(raws), st.adults);
  }

  /** Every sequence of clicks, adult-count changes and seat reloads keeps the
      selection duplicate-free, drawn from the loaded seats and no longer than
      the adult count. */
  lemma {:induction false} RunPreserves(st: State, es: seq<Event>)
    requires ValidState(st)
    ensures ValidState(Run(st, es))
    decreases |es|
  {
    if |es| > 0 {
      StepPreserves(st, es[0]);
      RunPreserves(Step(st, es[0]), es[1..]);
    }
  }

  /** The modal opens with nothing selected and no seats loaded. */
  lemma InitialStateValid(adults: nat)
    ensures ValidState(State([], adults, []))
  {
  }
}
