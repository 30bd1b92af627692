/** The trip card: the seat-map grid it draws under the trip details, and the
    "Book Now" button that opens the booking modal.

    The grid keeps the seats whose number has the shape `^([A-Z]+)(\d+)$`,
    groups them by the row letters in the order the rows first appear, shows
    the rows in code-unit order of their letters, and orders each row by the
    seat's number with a stable sort. */
module TripCard {
  import opened Common

  /** One entry of the trip's seat map; `seatNumber` is `None` when the field
      is missing or not a string. */
  datatype CardSeat = CardSeat(seatNumber: Option<string>, isAvailable: bool)

  /** A seat number split into its row letters and its numeric part. */
  datatype SeatLabel = SeatLabel(row: string, number: nat)

  predicate IsUpper(c: char) {
    'A' <= c <= 'Z'
  }

  predicate AllUpper(s: string) {
    forall i | 0 <= i < |s| :: IsUpper(s[i])
  }

  /** Where the run of capitals starting at `i` ends. */
  function UpperRunEnd(s: string, i: nat): (e: nat)
    requires i <= |s|
    ensures i <= e <= |s|
    ensures forall j | i <= j < e :: IsUpper(s[j])
    ensures e == |s| || !IsUpper(s[e])
    decreases |s| - i
  {
    if i == |s| || !IsUpper(s[i]) then i else UpperRunEnd(s, i + 1)
  }

  /** `^([A-Z]+)(\d+)$` matches `s` with the first group ending at `k`. */
  predicate SplitsAt(s: string, k: int) {
    0 < k < |s| && AllUpper(s[..k]) && AllDigits(s[k..])
  }

  /** A digit is not a capital, so the regular expression can split a seat
      number in one place only: where its leading capitals end. */
  lemma SplitIsUnique(s: string, k: int)
    requires SplitsAt(s, k)
    ensures k == UpperRunEnd(s, 0)
  {
    assert forall j | 0 <= j < k :: IsUpper(s[j]) by {
      forall j | 0 <= j < k ensures IsUpper(s[j]) {
        assert s[..k][j] == s[j];
      }
    }
    assert IsDigit(s[k..][0]) && s[k..][0] == s[k];
  }

  /** The match of the seat-number pattern, with the numeric part read as
      `parseInt` reads the digits left after stripping the leading capitals. */
  function ParseLabel(s: string): Option<SeatLabel> {
    var k := UpperRunEnd(s, 0);
    if SplitsAt(s, k) then Some(SeatLabel(s[..k], DigitsValue(s[k..]))) else None
  }

  /** The seat number matches exactly when some split fits the pattern, and
      the match yields that split's row letters and number. */
  lemma ParseLabelSpec(s: string)
    ensures ParseLabel(s).Some? <==> exists k :: SplitsAt(s, k)
    ensures forall k | SplitsAt(s, k) :: ParseLabel(s) == Some(SeatLabel(s[..k], DigitsValue(s[k..])))
  {
    forall k | SplitsAt(s, k) ensures k == UpperRunEnd(s, 0) {
      SplitIsUnique(s, k);
    }
  }

  /** Writing a row and a number as a seat number and matching it again
      gives both parts back. */
  lemma LabelRoundTrip(row: string, digits: string)
    requires |row| > 0 && AllUpper(row)
    requires |digits| > 0 && AllDigits(digits)
    ensures ParseLabel(row + digits) == Some(SeatLabel(row, DigitsValue(digits)))
  {
    var s := row + digits;
    assert s[..|row|] == row && s[|row|..] == digits;
    assert SplitsAt(s, |row|);
    ParseLabelSpec(s);
  }

  /** A seat of the map that the pattern matched, with its position. */
  datatype Entry = Entry(index: nat, seat: CardSeat, parsed: SeatLabel)

  /** Every seat of the map has a seat number, so reading it cannot throw. */
  predicate Labelled(seats: seq<CardSeat>) {
    forall i | 0 <= i < |seats| :: seats[i].seatNumber.Some?
  }

  predicate Matches(seats: seq<CardSeat>, i: int)
    requires Labelled(seats)
  {
    0 <= i < |seats| && ParseLabel(seats[i].seatNumber.value).Some?
  }

  predicate IncreasingIndices(es: seq<Entry>) {
    forall j, j' | 0 <= j < j' < |es| :: es[j].index < es[j'].index
  }

  /** The seats the `forEach` keeps, in map order: those whose number matches
      the pattern. */
  function Matching(seats: seq<CardSeat>): seq<Entry>
    requires Labelled(seats)
  {
    if |seats| == 0 then []
    else
      var n := |seats| - 1;
      var r0 := Matching(seats[..n]);
      match ParseLabel(seats[n].seatNumber.value)
      case None => r0
      case Some(l) => r0 + [Entry(n, seats[n], l)]
  }

  /** `e` is the seat at its position in the map, with the match of its
      number. */
  predicate KeptFrom(seats: seq<CardSeat>, e: Entry)
    requires Labelled(seats)
  {
    && e.index < |seats|
    && e.seat == seats[e.index]
    && ParseLabel(seats[e.index].seatNumber.value) == Some(e.parsed)
  }

  /** Every kept entry is a seat of the map at its position, with the match
      of its number. */
  lemma {:induction false} MatchingSound(seats: seq<CardSeat>)
    requires Labelled(seats)
    ensures forall j | 0 <= j < |Matching(seats)| :: KeptFrom(seats, Matching(seats)[j])
  {
    if |seats| > 0 {
      var n := |seats| - 1;
      var front := seats[..n];
      MatchingSound(front);
      var r0 := Matching(front);
      var r := Matching(seats);
      var p := ParseLabel(seats[n].seatNumber.value);
      assert r == if p.Some? then r0 + [Entry(n, seats[n], p.value)] else r0;
      forall j | 0 <= j < |r| ensures KeptFrom(seats, r[j]) {
        if j < |r0| {
          assert r[j] == r0[j];
          assert KeptFrom(front, r0[j]);
          assert front[r0[j].index] == seats[r0[j].index];
        }
      }
    }
  }

  /** The kept entries are in map order, each seat at most once. */
  lemma {:induction false} MatchingIncreasing(seats: seq<CardSeat>)
    requires Labelled(seats)
    ensures IncreasingIndices(Matching(seats))
  {
    if |seats| > 0 {
      var n := |seats| - 1;
      var front := seats[..n];
      MatchingIncreasing(front);
      MatchingSound(front);
      var r0 := Matching(front);
      var r := Matching(seats);
      var p := ParseLabel(seats[n].seatNumber.value);
      assert r == if p.Some? then r0 + [Entry(n, seats[n], p.value)] else r0;
      forall j, j' | 0 <= j < j' < |r| ensures r[j].index < r[j'].index {
        assert r[j] == r0[j];
        assert KeptFrom(front, r0[j]);
        if j' < |r0| {
          assert r[j'] == r0[j'];
        }
      }
    }
  }

  predicate HasIndex(es: seq<Entry>, i: int) {
    exists j :: 0 <= j < |es| && es[j].index == i
  }

  /** Every seat whose number matches the pattern is kept. */
  lemma {:induction false} MatchingComplete(seats: seq<CardSeat>)
    requires Labelled(seats)
    ensures forall i | Matches(seats, i) :: HasIndex(Matching(seats), i)
  {
    if |seats| > 0 {
      var n := |seats| - 1;
      var front := seats[..n];
      assert forall i | 0 <= i < n :: front[i] == seats[i];
      MatchingComplete(front);
      var r0 := Matching(front);
      var r := Matching(seats);
      var p := ParseLabel(seats[n].seatNumber.value);
      assert r == if p.Some? then r0 + [Entry(n, seats[n], p.value)] else r0;
      forall i | Matches(seats, i) ensures HasIndex(r, i) {
        if i == n {
          assert p.Some?;
          assert r[|r| - 1].index == i;
        } else {
          assert Matches(front, i);
          assert HasIndex(r0, i);
          var j :| 0 <= j < |r0| && r0[j].index == i;
          assert r[j] == r0[j];
        }
      }
    }
  }

  /** The entries of row `key`, in the order the `forEach` pushes them. */
  function InRow(es: seq<Entry>, key: string): (r: seq<Entry>)
    ensures |r| <= |es|
  {
    if |es| == 0 then []
    else
      var e := es[|es| - 1];
      InRow(es[..|es| - 1], key) + if e.parsed.row == key then [e] else []
  }

  /** The entries of a row are the matching seats with those row letters. */
  lemma {:induction false} InRowMembers(es: seq<Entry>, key: string)
    ensures forall e :: e in InRow(es, key) <==> e in es && e.parsed.row == key
  {
    if |es| > 0 {
      var front := es[..|es| - 1];
      InRowMembers(front, key);
      assert es == front + [es[|es| - 1]];
    }
  }

  /** Filtering keeps the map order of the seats. */
  lemma {:induction false} InRowIncreasing(es: seq<Entry>, key: string)
    requires IncreasingIndices(es)
    ensures IncreasingIndices(InRow(es, key))
  {
    if |es| > 0 {
      var front := es[..|es| - 1];
      assert IncreasingIndices(front);
      InRowIncreasing(front, key);
      InRowMembers(front, key);
      var r0 := InRow(front, key);
      var e := es[|es| - 1];
      if e.parsed.row == key {
        var r := r0 + [e];
        forall j, j' | 0 <= j < j' < |r| ensures r[j].index < r[j'].index {
          if j' == |r0| {
            assert r[j] in front;
            var t :| 0 <= t < |front| && front[t] == r[j];
          }
        }
      }
    }
  }

  predicate DistinctKeys(ks: seq<string>) {
    forall i, j | 0 <= i < j < |ks| :: ks[i] != ks[j]
  }

  /** The keys of `seatRows` in the order the `forEach` first sets them; the
      list under each key is `InRow` of that key. */
  function RowKeys(es: seq<Entry>): (ks: seq<string>)
    ensures DistinctKeys(ks)
  {
    if |es| == 0 then []
    else
      var ks0 := RowKeys(es[..|es| - 1]);
      var k := es[|es| - 1].parsed.row;
      if k in ks0 then ks0 else ks0 + [k]
  }

  /** A key is set exactly when some matching seat has those row letters. */
  lemma {:induction false} RowKeysSpec(es: seq<Entry>)
    ensures forall k :: k in RowKeys(es) <==> |InRow(es, k)| > 0
  {
    if |es| > 0 {
      var front := es[..|es| - 1];
      RowKeysSpec(front);
      var e := es[|es| - 1];
      assert forall k :: InRow(es, k) == InRow(front, k) + (if e.parsed.row == k then [e] else []);
    }
  }

  /** Every matching seat's row is a key of `seatRows`. */
  lemma EntryRowIsKey(es: seq<Entry>, j: int)
    requires 0 <= j < |es|
    ensures es[j].parsed.row in RowKeys(es)
  {
    InRowMembers(es, es[j].parsed.row);
    RowKeysSpec(es);
  }

  /** The ordering `Array.prototype.sort` uses without a comparator: the
      code-unit order of strings, where a proper prefix comes first. */
  predicate LexLess(a: string, b: string)
    decreases |a|
  {
    if |a| == 0 then |b| > 0
    else if |b| == 0 then false
    else if a[0] != b[0] then a[0] < b[0]
    else LexLess(a[1..], b[1..])
  }

  /** The comparison of ECMA-262's IsLessThan on two strings: `a` is a proper
      prefix of `b`, or the first differing code unit is smaller in `a`. */
  predicate StringLess(a: string, b: string) {
    || (|a| < |b| && a == b[..|a|])
    || exists k :: 0 <= k < |a| && k < |b| && a[..k] == b[..k] && a[k] < b[k]
  }

  lemma {:induction false} LexLessIsStringLess(a: string, b: string)
    ensures LexLess(a, b) <==> StringLess(a, b)
  {
    if |a| == 0 {
      assert |b| > 0 ==> a == b[..0];
    } else if |b| == 0 {
    } else if a[0] != b[0] {
      StringLessAtHead(a, b);
    } else {
      StringLessTail(a, b);
      LexLessIsStringLess(a[1..], b[1..]);
    }
  }

  /** Strings whose first code units differ compare by those units. */
  lemma StringLessAtHead(a: string, b: string)
    requires |a| > 0 && |b| > 0 && a[0] != b[0]
    ensures StringLess(a, b) <==> a[0] < b[0]
  {
    if a[0] < b[0] {
      assert a[..0] == b[..0];
    }
    assert |a| < |b| ==> b[..|a|][0] == b[0];
    assert forall k | 0 < k <= |a| && k <= |b| :: a[..k][0] == a[0] && b[..k][0] == b[0];
  }

  /** Strings with the same first code unit compare as their tails. */
  lemma StringLessTail(a: string, b: string)
    requires |a| > 0 && |b| > 0 && a[0] == b[0]
    ensures StringLess(a, b) <==> StringLess(a[1..], b[1..])
  {
    var a', b' := a[1..], b[1..];
    if StringLess(a', b') {
      if |a'| < |b'| && a' == b'[..|a'|] {
        assert a == [a[0]] + a' && b[..|a|] == [b[0]] + b'[..|a'|];
      } else {
        var k :| 0 <= k < |a'| && k < |b'| && a'[..k] == b'[..k] && a'[k] < b'[k];
        assert a[..k + 1] == [a[0]] + a'[..k] && b[..k + 1] == [b[0]] + b'[..k];
        assert a[k + 1] == a'[k] && b[k + 1] == b'[k];
      }
    }
    if StringLess(a, b) {
      if |a| < |b| && a == b[..|a|] {
        assert a' == b'[..|a'|];
      } else {
        var k :| 0 <= k < |a| && k < |b| && a[..k] == b[..k] && a[k] < b[k];
        assert k > 0;
        assert a'[..k - 1] == a[..k][1..] && b'[..k - 1] == b[..k][1..];
        assert a'[k - 1] == a[k] && b'[k - 1] == b[k];
      }
    }
  }

  lemma {:induction false} LexIrreflexive(a: string)
    ensures !LexLess(a, a)
    decreases |a|
  {
    if |a| > 0 {
      LexIrreflexive(a[1..]);
    }
  }

  lemma {:induction false} LexTransitive(a: string, b: string, c: string)
    requires LexLess(a, b) && LexLess(b, c)
    ensures LexLess(a, c)
    decreases |a|
  {
    if |a| > 0 && a[0] == b[0] && b[0] == c[0] {
      LexTransitive(a[1..], b[1..], c[1..]);
    }
  }

  lemma {:induction false} LexTotal(a: string, b: string)
    requires a != b
    ensures LexLess(a, b) || LexLess(b, a)
    decreases |a|
  {
    if |a| > 0 && |b| > 0 && a[0] == b[0] {
      assert a == [a[0]] + a[1..] && b == [b[0]] + b[1..];
      LexTotal(a[1..], b[1..]);
    }
  }

  predicate KeysSorted(ks: seq<string>) {
    forall i, j | 0 <= i < j < |ks| :: LexLess(ks[i], ks[j])
  }

  /** Inserting a new key into an ordered list of keys. */
  function InsertKey(k: string, ks: seq<string>): (r: seq<string>)
    requires KeysSorted(ks) && k !in ks
    ensures KeysSorted(r)
    ensures |r| == |ks| + 1
    ensures forall x :: x in r <==> x == k || x in ks
  {
    if |ks| == 0 then [k]
    else if LexLess(k, ks[0]) then
      assert forall j | 0 < j < |ks| :: LexLess(k, ks[j]) by {
        forall j | 0 < j < |ks| ensures LexLess(k, ks[j]) {
          LexTransitive(k, ks[0], ks[j]);
        }
      }
      [k] + ks
    else
      LexTotal(k, ks[0]);
      var rest := InsertKey(k, ks[1..]);
      assert forall x | x in rest :: LexLess(ks[0], x);
      [ks[0]] + rest
  }

  /** `Object.keys(seatRows).sort()`: an insertion sort of the distinct keys. */
  function SortKeys(ks: seq<string>): (r: seq<string>)
    requires DistinctKeys(ks)
    ensures KeysSorted(r)
    ensures |r| == |ks|
    ensures forall x :: x in r <==> x in ks
  {
    if |ks| == 0 then []
    else
      var front := ks[..|ks| - 1];
      InsertKey(ks[|ks| - 1], SortKeys(front))
  }

  /** Keys in strictly ascending order are distinct. */
  lemma SortedKeysDistinct(ks: seq<string>)
    requires KeysSorted(ks)
    ensures DistinctKeys(ks)
  {
    forall i, j | 0 <= i < j < |ks| ensures ks[i] != ks[j] {
      LexIrreflexive(ks[i]);
    }
  }

  /** The comparator of the row sort, `anum - bnum`, with ties broken by the
      position in the map, which a stable sort preserves. */
  predicate Before(a: Entry, b: Entry) {
    a.parsed.number < b.parsed.number || (a.parsed.number == b.parsed.number && a.index < b.index)
  }

  predicate RowSorted(es: seq<Entry>) {
    forall j, j' | 0 <= j < j' < |es| :: Before(es[j], es[j'])
  }

  /** Every entry of `es` sits in the map before position `bound`. */
  predicate IndicesBelow(es: seq<Entry>, bound: int) {
    forall j | 0 <= j < |es| :: es[j].index < bound
  }

  /** Every entry of `es` is ordered after `h`. */
  predicate AllAfter(h: Entry, es: seq<Entry>) {
    forall j | 0 <= j < |es| :: Before(h, es[j])
  }

  /** Both properties hold of a rearrangement of the entries. */
  lemma BoundsKept(a: seq<Entry>, b: seq<Entry>, h: Entry, bound: int)
    requires multiset(a) == multiset(b)
    ensures IndicesBelow(a, bound) ==> IndicesBelow(b, bound)
    ensures AllAfter(h, a) ==> AllAfter(h, b)
  {
    forall j | 0 <= j < |b| ensures exists t | 0 <= t < |a| :: a[t] == b[j] {
      assert b[j] in multiset(a);
    }
  }

  /** An entry ordered before every entry of a sorted row heads it. */
  lemma PrependSorted(h: Entry, es: seq<Entry>)
    requires RowSorted(es) && AllAfter(h, es)
    ensures RowSorted([h] + es)
    ensures multiset([h] + es) == multiset{h} + multiset(es)
  {
    var r := [h] + es;
    assert forall j | 0 < j < |r| :: r[j] == es[j - 1];
  }

  /** Inserting an entry that comes later in the map than every entry of a
      sorted row: it goes after every entry whose number is not larger. */
  function InsertEntry(e: Entry, es: seq<Entry>): (r: seq<Entry>)
    requires RowSorted(es) && IndicesBelow(es, e.index)
    ensures RowSorted(r)
    ensures multiset(r) == multiset(es) + multiset{e}
  {
    if |es| == 0 then [e]
    else if e.parsed.number < es[0].parsed.number then
      assert AllAfter(e, es) by {
        assert forall j | 0 < j < |es| :: Before(es[0], es[j]);
      }
      PrependSorted(e, es);
      [e] + es
    else
      var tail := es[1..];
      SortedTail(es);
      var rest := InsertEntry(e, tail);
      assert AllAfter(es[0], tail + [e]);
      BoundsKept(tail + [e], rest, es[0], e.index);
      PrependSorted(es[0], rest);
      [es[0]] + rest
  }

  /** A row in map order splits into its earlier entries and its last one. */
  lemma SplitLast(es: seq<Entry>)
    requires IncreasingIndices(es) && |es| > 0
    ensures IncreasingIndices(es[..|es| - 1])
    ensures IndicesBelow(es[..|es| - 1], es[|es| - 1].index)
    ensures multiset(es) == multiset(es[..|es| - 1]) + multiset{es[|es| - 1]}
  {
    assert es == es[..|es| - 1] + [es[|es| - 1]];
  }

  /** `seatRows[row].sort((a, b) => anum - bnum)`, as the stable insertion
      sort it amounts to. */
  function SortRow(es: seq<Entry>): (r: seq<Entry>)
    requires IncreasingIndices(es)
    ensures RowSorted(r)
    ensures multiset(r) == multiset(es)
  {
    if |es| == 0 then []
    else
      var front := es[..|es| - 1];
      var last := es[|es| - 1];
      SplitLast(es);
      var sorted := SortRow(front);
      BoundsKept(front, sorted, last, last.index);
      InsertEntry(last, sorted)
  }

  /** Two sorted rows holding the same entries start with the same entry. */
  lemma SortedHeadsAgree(a: seq<Entry>, b: seq<Entry>)
    requires RowSorted(a) && RowSorted(b)
    requires multiset(a) == multiset(b) && |a| > 0
    ensures |b| > 0 && a[0] == b[0]
  {
    assert a[0] in multiset(b);
    assert b[0] in multiset(a);
    var i :| 0 <= i < |a| && a[i] == b[0];
    var j :| 0 <= j < |b| && b[j] == a[0];
    assert i > 0 ==> Before(a[0], a[i]);
    assert j > 0 ==> Before(b[0], b[j]);
  }

  /** The tail of a sorted row is sorted and holds the other entries. */
  lemma SortedTail(a: seq<Entry>)
    requires RowSorted(a) && |a| > 0
    ensures RowSorted(a[1..])
    ensures multiset(a) == multiset{a[0]} + multiset(a[1..])
  {
    assert a == [a[0]] + a[1..];
  }

  /** Removing the same element from two equal multisets leaves equal ones. */
  lemma MultisetCancel<T>(x: T, p: multiset<T>, q: multiset<T>)
    requires multiset{x} + p == multiset{x} + q
    ensures p == q
  {
    forall y ensures p[y] == q[y] {
      assert (multiset{x} + p)[y] == (multiset{x} + q)[y];
    }
  }

  /** The sorted order is the only one: any sort whose output is ordered by
      number and keeps map order among equal numbers (every stable sort with
      this comparator) gives the same row. */
  lemma {:induction false} RowSortIsUnique(a: seq<Entry>, b: seq<Entry>)
    requires RowSorted(a) && RowSorted(b)
    requires multiset(a) == multiset(b)
    ensures a == b
  {
    if |a| > 0 {
      SortedHeadsAgree(a, b);
      SortedTail(a);
      SortedTail(b);
      MultisetCancel(a[0], multiset(a[1..]), multiset(b[1..]));
      RowSortIsUnique(a[1..], b[1..]);
      assert a == [a[0]] + a[1..] && b == [b[0]] + b[1..];
    } else {
      assert |b| == |multiset(b)|;
    }
  }

  /** One column of the grid: a row's letters and its seats. */
  datatype Row = Row(key: string, seats: seq<Entry>)

  /** What the card draws for its seat map: nothing when the trip carries no
      seat-map array, a render error when some seat has no seat number (the
      `match` call throws), else the grid. */
  datatype SeatMapView = NotShown | RenderError | Grid(rows: seq<Row>)

  /** The row letters heading the columns, left to right. */
  function Keys(rows: seq<Row>): (ks: seq<string>)
    ensures |ks| == |rows|
    ensures forall i | 0 <= i < |rows| :: ks[i] == rows[i].key
  {
    seq(|rows|, i requires 0 <= i < |rows| => rows[i].key)
  }

  /** A column shows exactly the matching seats of its row, in order. */
  predicate RowShows(r: Row, m: seq<Entry>) {
    && |r.seats| > 0
    && RowSorted(r.seats)
    && multiset(r.seats) == multiset(InRow(m, r.key))
  }

  predicate HasColumn(rows: seq<Row>, key: string) {
    exists i :: 0 <= i < |rows| && rows[i].key == key
  }

  /** The columns for the keys `ks`, in that order, each the row's list from
      `seatRows` sorted by seat number. */
  function Columns(m: seq<Entry>, ks: seq<string>): (r: seq<Row>)
    requires IncreasingIndices(m)
    ensures |r| == |ks|
    ensures forall i | 0 <= i < |r| ::
      && r[i].key == ks[i]
      && RowSorted(r[i].seats)
      && multiset(r[i].seats) == multiset(InRow(m, ks[i]))
  {
    if |ks| == 0 then []
    else
      InRowIncreasing(m, ks[0]);
      var c := Row(ks[0], SortRow(InRow(m, ks[0])));
      var rest := Columns(m, ks[1..]);
      var r := [c] + rest;
      assert forall i | 0 < i < |r| :: r[i] == rest[i - 1];
      r
  }

  /** The grid for the matching seats `m`: the keys of `seatRows` sorted,
      each column sorted by seat number. */
  function Layout(m: seq<Entry>): (rows: seq<Row>)
    requires IncreasingIndices(m)
    ensures KeysSorted(Keys(rows))
  {
    var ks := SortKeys(RowKeys(m));
    var rows := Columns(m, ks);
    assert Keys(rows) == ks;
    rows
  }

  /** Each column is non-empty, sorted by seat number with ties in map order,
      and holds exactly the matching seats of its row. */
  lemma LayoutRowShows(m: seq<Entry>, i: int)
    requires IncreasingIndices(m) && 0 <= i < |Layout(m)|
    ensures RowShows(Layout(m)[i], m)
  {
    var ks := SortKeys(RowKeys(m));
    var rows := Columns(m, ks);
    assert rows == Layout(m);
    RowKeysSpec(m);
    assert ks[i] in RowKeys(m);
    assert |multiset(rows[i].seats)| == |multiset(InRow(m, ks[i]))|;
  }

  /** The row of every matching seat has a column. */
  lemma LayoutCovers(m: seq<Entry>, j: int)
    requires IncreasingIndices(m) && 0 <= j < |m|
    ensures HasColumn(Layout(m), m[j].parsed.row)
  {
    var ks := SortKeys(RowKeys(m));
    var rows := Columns(m, ks);
    assert rows == Layout(m);
    EntryRowIsKey(m, j);
    var i :| 0 <= i < |ks| && ks[i] == m[j].parsed.row;
    assert rows[i].key == ks[i];
  }

  /** The grid for a seat map whose seats all have numbers. */
  function GridFor(seats: seq<CardSeat>): seq<Row>
    requires Labelled(seats)
  {
    MatchingIncreasing(seats);
    Layout(Matching(seats))
  }

  /** The seat-map section of the card. */
  function RenderSeatMap(seatMap: Option<seq<CardSeat>>): (v: SeatMapView)
    ensures v.NotShown? <==> seatMap.None?
    ensures v.RenderError? <==> seatMap.Some? && !Labelled(seatMap.value)
    ensures v.Grid? ==> Labelled(seatMap.value) && v.rows == GridFor(seatMap.value)
  {
    match seatMap
    case None => NotShown
    case Some(seats) =>
      if Labelled(seats) then Grid(GridFor(seats)) else RenderError
  }

  /** A column holds a matching seat exactly when the seat has the column's
      row letters. */
  lemma ColumnMembers(m: seq<Entry>, i: int, e: Entry)
    requires IncreasingIndices(m) && 0 <= i < |Layout(m)|
    ensures e in Layout(m)[i].seats <==> e in m && e.parsed.row == Layout(m)[i].key
  {
    var r := Layout(m)[i];
    LayoutRowShows(m, i);
    InRowMembers(m, r.key);
    assert e in r.seats <==> e in multiset(r.seats);
    assert e in InRow(m, r.key) <==> e in multiset(InRow(m, r.key));
  }

  /** Each seat whose number matches the pattern is drawn in exactly one
      column: there is a column with its row letters, no two columns share
      their letters, and a column holds the seat exactly when it has those
      letters. */
  lemma EachMatchingSeatInOneRow(m: seq<Entry>, j: int)
    requires IncreasingIndices(m) && 0 <= j < |m|
    ensures var rows := Layout(m);
      && HasColumn(rows, m[j].parsed.row)
      && DistinctKeys(Keys(rows))
      && forall i | 0 <= i < |rows| :: m[j] in rows[i].seats <==> rows[i].key == m[j].parsed.row
  {
    var rows := Layout(m);
    SortedKeysDistinct(Keys(rows));
    LayoutCovers(m, j);
    forall i | 0 <= i < |rows| ensures m[j] in rows[i].seats <==> rows[i].key == m[j].parsed.row {
      ColumnMembers(m, i, m[j]);
    }
  }

  /** A seat whose number does not match the pattern is in no column. */
  lemma UnmatchedSeatDropped(seats: seq<CardSeat>, i: int)
    requires Labelled(seats) && 0 <= i < |seats| && !Matches(seats, i)
    ensures var rows := GridFor(seats);
      forall r, e | 0 <= r < |rows| && e in rows[r].seats :: e.index != i
  {
    var m := Matching(seats);
    MatchingIncreasing(seats);
    MatchingSound(seats);
    var rows := Layout(m);
    forall r, e | 0 <= r < |rows| && e in rows[r].seats ensures e.index != i {
      ColumnMembers(m, r, e);
      var j :| 0 <= j < |m| && m[j] == e;
      assert KeptFrom(seats, m[j]);
    }
  }

  /** The card's booking button. */
  datatype BookButton = BookButton(disabled: bool, caption: string)

  /** The button for a trip with `availableSeats` seats left; the count is
      the backend's number, so it is an `int`. */
  function BookButtonFor(availableSeats: int): (b: BookButton)
    ensures b.disabled <==> availableSeats == 0
    ensures b.caption == "Full" <==> b.disabled
    ensures !b.disabled ==> b.caption == "Book Now"
  {
    if availableSeats == 0 then BookButton(true, "Full") else BookButton(false, "Book Now")
  }

  /** Whether the booking modal is open after a press of the button; a
      disabled button does not react. */
  function PressBook(availableSeats: int, isOpen: bool): (r: bool)
    ensures r <==> isOpen || availableSeats > 0
  {
    if BookButtonFor(availableSeats).disabled then isOpen
    else if availableSeats > 0 then true
    else isOpen
  }

  /** The booking modal renders nothing while closed or when no seat is
      left. */
  function ModalShown(isOpen: bool, availableSeats: int): (r: bool)
    ensures r ==> isOpen
    ensures isOpen ==> (r <==> availableSeats != 0)
  {
    if !isOpen then false
    else if availableSeats == 0 then false
    else true
  }

  /** From a closed card, pressing the button shows the booking modal
      exactly when seats are left. */
  lemma PressShowsModal(availableSeats: int)
    ensures ModalShown(PressBook(availableSeats, false), availableSeats) <==> availableSeats > 0
  {
  }

  /** A negative seat count gives an enabled "Book Now" button that does not
      open the modal. */
  lemma NegativeCountInertButton(availableSeats: int)
    requires availableSeats < 0
    ensures !BookButtonFor(availableSeats).disabled
    ensures BookButtonFor(availableSeats).caption == "Book Now"
    ensures !PressBook(availableSeats, false)
  {
  }
}
