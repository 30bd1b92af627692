/** The price fallbacks the booking modal reads out of the trip's free-text
    price label (`labelPriceFallbacks`). Commas are dropped; a number after a
    "one way" or "round trip" marker wins; otherwise the one-way price is the
    first number of the label and the round-trip price the second, or the
    first when there is only one. */
module LabelPrice {
  import opened Common

  /** The label holds a digit at or after index `i`. */
  predicate HasDigitFrom(s: string, i: nat) {
    exists j | i <= j < |s| :: IsDigit(s[j])
  }

  /** The value of the digits after a decimal point: `0.d1d2...dn`, read
      from the right so that only division by ten is involved. */
  function FractionValue(d: string): (r: real)
    requires AllDigits(d)
    ensures 0.0 <= r < 1.0
  {
    if |d| == 0 then 0.0
    else ((d[0] as int - '0' as int) as real + FractionValue(d[1..])) / 10.0
  }

  /** `price.replace(/,/g, "")`: the label with exactly its commas removed. */
  function StripCommas(s: string): (t: string)
    ensures forall c {:trigger multiset(t)[c]} :: multiset(t)[c] == if c == ',' then 0 else multiset(s)[c]
  {
    if |s| == 0 then ""
    else
      assert s == [s[0]] + s[1..];
      (if s[0] == ',' then "" else [s[0]]) + StripCommas(s[1..])
  }

  /** A character other than a comma occurs in the stripped label exactly when
      it occurs in the label. */
  lemma StripCommasKeeps(s: string, c: char)
    requires c != ','
    ensures c in StripCommas(s) <==> c in s
  {
    var t := StripCommas(s);
    assert c in t <==> c in multiset(t);
    assert c in s <==> c in multiset(s);
  }

  /** Stripping commas neither adds nor removes digits, and keeps a blank
      label blank. */
  lemma StripCommasDigitsAndBlanks(s: string)
    ensures HasDigitFrom(StripCommas(s), 0) <==> HasDigitFrom(s, 0)
    ensures IsBlank(s) ==> IsBlank(StripCommas(s))
  {
    var t := StripCommas(s);
    if HasDigitFrom(t, 0) {
      var j :| 0 <= j < |t| && IsDigit(t[j]);
      StripCommasKeeps(s, t[j]);
      var i :| 0 <= i < |s| && s[i] == t[j];
    }
    if HasDigitFrom(s, 0) {
      var i :| 0 <= i < |s| && IsDigit(s[i]);
      StripCommasKeeps(s, s[i]);
      var j :| 0 <= j < |t| && t[j] == s[i];
    }
    BlankIffAllSpace(s);
    BlankIffAllSpace(t);
    if IsBlank(s) {
      forall j | 0 <= j < |t| ensures IsSpace(t[j]) {
        StripCommasKeeps(s, t[j]);
        var i :| 0 <= i < |s| && s[i] == t[j];
      }
    }
  }

  /** The first digit at or after `i`, or `|s|` when there is none. */
  function NextDigit(s: string, i: nat): (k: nat)
    requires i <= |s|
    ensures i <= k <= |s|
    ensures forall j | i <= j < k :: !IsDigit(s[j])
    ensures k < |s| <==> HasDigitFrom(s, i)
    ensures k < |s| ==> IsDigit(s[k])
    decreases |s| - i
  {
    if i == |s| || IsDigit(s[i]) then i else NextDigit(s, i + 1)
  }

  /** The end of the run of digits that starts at `i`. */
  function DigitRunEnd(s: string, i: nat): (e: nat)
    requires i <= |s|
    ensures i <= e <= |s|
    ensures forall j | i <= j < e :: IsDigit(s[j])
    ensures e < |s| ==> !IsDigit(s[e])
    decreases |s| - i
  {
    if i < |s| && IsDigit(s[i]) then DigitRunEnd(s, i + 1) else i
  }

  /** Index `j` of a numeral that starts at `k` holds a digit, or the decimal
      point right after a digit. */
  predicate InNumeral(s: string, k: nat, j: nat) {
    j < |s| && (IsDigit(s[j]) || (s[j] == '.' && j > k && IsDigit(s[j - 1])))
  }

  /** A numeral read from the label: its value and the index just after it. */
  datatype Numeral = Numeral(value: Money, end: nat)

  /** A decimal point at `e` followed by a digit: the numeral goes on with
      a fraction. */
  predicate HasFraction(s: string, e: nat) {
    e + 1 < |s| && s[e] == '.' && IsDigit(s[e + 1])
  }

  /** The end of the numeral `[0-9]+(?:\.\d+)?` that starts at digit `k`,
      read greedily: the digits, then a fraction when a dot is followed by a
      digit. */
  function NumeralEnd(s: string, k: nat): (e: nat)
    requires k < |s| && IsDigit(s[k])
    ensures k < e <= |s|
    ensures forall j | k <= j < e :: InNumeral(s, k, j)
    ensures e < |s| ==> !IsDigit(s[e])
  {
    var d := DigitRunEnd(s, k);
    if HasFraction(s, d) then DigitRunEnd(s, d + 1) else d
  }

  /** The numeral that starts at digit `k`: its value and its end. */
  function ReadNumeral(s: string, k: nat): (n: Numeral)
    requires k < |s| && IsDigit(s[k])
    ensures k < n.end <= |s|
    ensures n.value >= 0.0
  {
    var d := DigitRunEnd(s, k);
    var whole := DigitsValue(s[k..d]) as real;
    var e := NumeralEnd(s, k);
    Numeral(if HasFraction(s, d) then whole + FractionValue(s[d + 1..e]) else whole, e)
  }

  /** The next global numeric match at or after `i`. */
  function NumeralFrom(s: string, i: nat): (r: Option<Numeral>)
    requires i <= |s|
    ensures r.Some? <==> HasDigitFrom(s, i)
    ensures r.Some? ==> i < r.value.end <= |s| && r.value == ReadNumeral(s, NextDigit(s, i))
  {
    var k := NextDigit(s, i);
    if k == |s| then None else Some(ReadNumeral(s, k))
  }

  /** `normalized.match(/([0-9]+(?:\.\d+)?)/g)` from index `i` on, as values. */
  function NumbersFrom(s: string, i: nat): (ns: seq<Money>)
    requires i <= |s|
    ensures |ns| == 0 <==> !HasDigitFrom(s, i)
    ensures forall k | 0 <= k < |ns| :: ns[k] >= 0.0
    decreases |s| - i
  {
    match NumeralFrom(s, i)
    case None => []
    case Some(n) => [n.value] + NumbersFrom(s, n.end)
  }

  /** `word` (written in lower case) occurs at `i`, compared case-insensitively. */
  predicate WordAt(s: string, i: nat, word: string) {
    i + |word| <= |s| && forall j | 0 <= j < |word| :: LowerChar(s[i + j]) == word[j]
  }

  /** The end of the run of whitespace that starts at `i`. */
  function SpaceRunEnd(s: string, i: nat): (e: nat)
    requires i <= |s|
    ensures i <= e <= |s|
    decreases |s| - i
  {
    if i < |s| && IsSpace(s[i]) then SpaceRunEnd(s, i + 1) else i
  }

  /** When `first\s*second` occurs at `i`, the index just after it. */
  function MarkerAt(s: string, i: nat, first: string, second: string): (r: Option<nat>)
    ensures r.Some? ==> i + |first| + |second| <= r.value <= |s| && WordAt(s, r.value - |second|, second)
  {
    if WordAt(s, i, first) then
      var w := SpaceRunEnd(s, i + |first|);
      if WordAt(s, w, second) then Some(w + |second|) else None
    else None
  }

  /** The captured number of `/first\s*second[^0-9]*([0-9]+(?:\.\d+)?)/i`,
      searched from index `i`: the leftmost marker that has a digit somewhere
      after it, and the first numeral after that marker. */
  function MarkerPrice(s: string, i: nat, first: string, second: string): (r: Option<Money>)
    requires i <= |s|
    ensures r.Some? ==> HasDigitFrom(s, i) && r.value >= 0.0
    decreases |s| - i
  {
    if i == |s| then None
    else match MarkerAt(s, i, first, second)
      case Some(e) =>
        (match NumeralFrom(s, e)
         case Some(n) => Some(n.value)
         case None => MarkerPrice(s, i + 1, first, second))
      case None => MarkerPrice(s, i + 1, first, second)
  }

  /** The two fallbacks a label yields. */
  datatype LabelFallbacks = LabelFallbacks(oneWay: Option<Money>, roundTrip: Option<Money>)

  /** The `n`-th number of a list, when there is one. */
  function NumberAt(ns: seq<Money>, n: nat): Option<Money> {
    if n < |ns| then Some(ns[n]) else None
  }

  /** `labelPriceFallbacks`. */
  function LabelPrices(text: string): (r: LabelFallbacks)
    ensures IsBlank(text) ==> r == LabelFallbacks(None, None)
    ensures r.oneWay.Some? <==> HasDigitFrom(text, 0)
    ensures r.roundTrip.Some? <==> HasDigitFrom(text, 0)
    ensures r.oneWay.Some? ==> r.oneWay.value >= 0.0
    ensures r.roundTrip.Some? ==> r.roundTrip.value >= 0.0
  {
    if IsBlank(text) then
      BlankIffAllSpace(text);
      assert !HasDigitFrom(text, 0);
      LabelFallbacks(None, None)
    else
      var normalized := StripCommas(text);
      StripCommasDigitsAndBlanks(text);
      var oneWay := MarkerPrice(normalized, 0, "one", "way");
      var roundTrip := MarkerPrice(normalized, 0, "round", "trip");
      var numbers := NumbersFrom(normalized, 0);
      LabelFallbacks(oneWay.OrElse(NumberAt(numbers, 0)),
                     roundTrip.OrElse(NumberAt(numbers, 1).OrElse(NumberAt(numbers, 0))))
  }

  /** A marker that captures a number decides that trip type's price,
      whatever other numbers the label holds. */
  lemma MarkerWins(text: string)
    requires !IsBlank(text)
    ensures var m := MarkerPrice(StripCommas(text), 0, "one", "way");
      m.Some? ==> LabelPrices(text).oneWay == m
    ensures var m := MarkerPrice(StripCommas(text), 0, "round", "trip");
      m.Some? ==> LabelPrices(text).roundTrip == m
  {
  }

  /** A label with one number and no marker offers that number for both
      trip types. */
  lemma SingleNumberServesBoth(text: string)
    requires |NumbersFrom(StripCommas(text), 0)| == 1
    requires MarkerPrice(StripCommas(text), 0, "one", "way").None?
    requires MarkerPrice(StripCommas(text), 0, "round", "trip").None?
    ensures LabelPrices(text).oneWay == Some(NumbersFrom(StripCommas(text), 0)[0])
    ensures LabelPrices(text).roundTrip == LabelPrices(text).oneWay
  {
    StripCommasDigitsAndBlanks(text);
    assert HasDigitFrom(text, 0);
  }

  /** Commas never matter: stripping them first gives the same prices. */
  lemma LabelIgnoresCommas(text: string)
    ensures LabelPrices(StripCommas(text)) == LabelPrices(text)
  {
    var t := StripCommas(text);
    assert StripCommas(t) == t by {
      NoCommasStripIdentity(t);
    }
    StripCommasDigitsAndBlanks(text);
    if IsBlank(t) {
      BlankIffAllSpace(t);
      assert !HasDigitFrom(t, 0);
      assert !HasDigitFrom(text, 0);
    }
  }

  /** Removing commas from a string without commas changes nothing. */
  lemma {:induction false} NoCommasStripIdentity(s: string)
    requires multiset(s)[','] == 0
    ensures StripCommas(s) == s
  {
    if |s| > 0 {
      assert s == [s[0]] + s[1..];
      assert multiset(s) == multiset{s[0]} + multiset(s[1..]);
      assert s[0] != ',';
      NoCommasStripIdentity(s[1..]);
    }
  }

  /** Position `k` starts a numeral of its own: it holds a digit and is not
      the continuation of a digit run or of a decimal fraction. */
  predicate NumeralStart(s: string, k: nat) {
    && k < |s| && IsDigit(s[k])
    && (k > 0 ==> !IsDigit(s[k - 1]))
    && (k > 1 && s[k - 1] == '.' ==> !IsDigit(s[k - 2]))
  }

  /** A numeral that starts on its own at or after `i` is one of the numbers
      the global scan from `i` finds. */
  lemma {:induction false} NumeralStartIsListed(s: string, i: nat, k: nat)
    requires i <= k && NumeralStart(s, k)
    ensures ReadNumeral(s, k).value in NumbersFrom(s, i)
    decreases k - i
  {
    var j := NextDigit(s, i);
    assert j <= k;
    var n := ReadNumeral(s, j);
    assert NumeralFrom(s, i) == Some(n);
    assert NumbersFrom(s, i) == [n.value] + NumbersFrom(s, n.end);
    if j < k {
      assert n.end <= k;
      NumeralStartIsListed(s, n.end, k);
    }
  }

  /** A marker word whose last character is a lower-case letter. */
  predicate EndsInLetter(word: string) {
    |word| > 0 && 'a' <= word[|word| - 1] <= 'z'
  }

  /** The first digit after a marker that ends in a letter starts a numeral
      of its own. */
  lemma MarkerEndStartsNumeral(s: string, e: nat, second: string)
    requires EndsInLetter(second)
    requires |second| <= e <= |s| && WordAt(s, e - |second|, second)
    requires HasDigitFrom(s, e)
    ensures NumeralStart(s, NextDigit(s, e))
  {
    var last := e - 1;
    assert LowerChar(s[last]) == second[|second| - 1] by {
      assert s[e - |second| + (|second| - 1)] == s[last];
    }
    assert !IsDigit(s[last]) && s[last] != '.';
  }

  /** The marker search finds a marker at `i` with a digit somewhere after it. */
  predicate MarkerHit(s: string, i: nat, first: string, second: string) {
    MarkerAt(s, i, first, second).Some? && HasDigitFrom(s, MarkerAt(s, i, first, second).value)
  }

  /** A price, when there is one, is an element of `ns`. */
  predicate ListedIn(ns: seq<Money>, r: Option<Money>) {
    r.Some? ==> r.value in ns
  }

  /** `ns` holds the value of every numeral that starts on its own in `s`. */
  predicate HoldsNumerals(s: string, ns: seq<Money>) {
    forall k | 0 <= k < |s| && NumeralStart(s, k) :: ReadNumeral(s, k).value in ns
  }

  /** The label's numbers hold every numeral of the label. */
  lemma NumbersHoldNumerals(s: string)
    ensures HoldsNumerals(s, NumbersFrom(s, 0))
  {
    forall k | 0 <= k < |s| && NumeralStart(s, k) ensures ReadNumeral(s, k).value in NumbersFrom(s, 0) {
      NumeralStartIsListed(s, 0, k);
    }
  }

  /** A marker at `i` with a digit after it captures the first numeral after
      the marker, which is a numeral of its own. */
  lemma MarkerHitListed(s: string, i: nat, first: string, second: string, ns: seq<Money>)
    requires EndsInLetter(second) && HoldsNumerals(s, ns)
    requires i < |s| && MarkerHit(s, i, first, second)
    ensures ListedIn(ns, MarkerPrice(s, i, first, second))
  {
    var e := MarkerAt(s, i, first, second).value;
    assert MarkerPrice(s, i, first, second) == Some(ReadNumeral(s, NextDigit(s, e)).value);
    MarkerEndStartsNumeral(s, e, second);
  }

  /** Without such a marker at `i`, the search moves on to `i + 1`. */
  lemma MarkerMissListed(s: string, i: nat, first: string, second: string, ns: seq<Money>)
    requires i < |s| && !MarkerHit(s, i, first, second)
    requires ListedIn(ns, MarkerPrice(s, i + 1, first, second))
    ensures ListedIn(ns, MarkerPrice(s, i, first, second))
  {
    assert MarkerPrice(s, i, first, second) == MarkerPrice(s, i + 1, first, second);
  }

  /** One step of the search keeps the captured number in `ns`. */
  lemma MarkerStepListed(s: string, i: nat, first: string, second: string, ns: seq<Money>)
    requires EndsInLetter(second) && HoldsNumerals(s, ns)
    requires i < |s| && ListedIn(ns, MarkerPrice(s, i + 1, first, second))
    ensures ListedIn(ns, MarkerPrice(s, i, first, second))
  {
    if MarkerHit(s, i, first, second) {
      MarkerHitListed(s, i, first, second, ns);
    } else {
      MarkerMissListed(s, i, first, second, ns);
    }
  }

  /** The search that starts at the end of the label finds nothing. */
  lemma MarkerEndListed(s: string, first: string, second: string)
    ensures MarkerPrice(s, |s|, first, second) == None
  {
  }

  /** The search from `i` captures, if anything, one of the numerals. */
  lemma {:induction false} MarkerSearchListed(s: string, i: nat, first: string, second: string, ns: seq<Money>)
    requires i <= |s|
    requires EndsInLetter(second) && HoldsNumerals(s, ns)
    ensures ListedIn(ns, MarkerPrice(s, i, first, second))
    decreases |s| - i
  {
    if i < |s| {
      MarkerSearchListed(s, i + 1, first, second, ns);
      MarkerStepListed(s, i, first, second, ns);
    } else {
      MarkerEndListed(s, first, second);
    }
  }

  /** The number a marker captures is one of the label's numbers, provided
      the marker ends in a letter. */
  lemma MarkerPriceIsListed(s: string, i: nat, first: string, second: string)
    requires i <= |s|
    requires EndsInLetter(second)
    ensures MarkerPrice(s, i, first, second).Some? ==> MarkerPrice(s, i, first, second).value in NumbersFrom(s, 0)
  {
    NumbersHoldNumerals(s);
    MarkerSearchListed(s, i, first, second, NumbersFrom(s, 0));
  }

  /** Every price a label yields is one of the numbers written in it. */
  lemma LabelPricesAreListed(text: string)
    ensures LabelPrices(text).oneWay.Some? ==>
      LabelPrices(text).oneWay.value in NumbersFrom(StripCommas(text), 0)
    ensures LabelPrices(text).roundTrip.Some? ==>
      LabelPrices(text).roundTrip.value in NumbersFrom(StripCommas(text), 0)
  {
    if !IsBlank(text) {
      var normalized := StripCommas(text);
      MarkerPriceIsListed(normalized, 0, "one", "way");
      MarkerPriceIsListed(normalized, 0, "round", "trip");
    }
  }

  /** Index `j` lies inside the numeral that starts at digit `k`. */
  predicate Inside(s: string, k: nat, j: nat) {
    k < |s| && IsDigit(s[k]) && k <= j < NumeralEnd(s, k)
  }

  /** Index `j` lies inside one of the numerals that start at `ks`. */
  predicate Covered(s: string, ks: seq<nat>, j: nat) {
    exists m | 0 <= m < |ks| :: Inside(s, ks[m], j)
  }

  /** `ks` lists where the numerals of a global scan from `i` start: each
      start is a digit at or after `i`, every numeral ends before the next one
      starts, and every digit at or after `i` lies inside one of them. */
  predicate Tiles(s: string, i: nat, ks: seq<nat>) {
    && (forall m | 0 <= m < |ks| :: i <= ks[m] < |s| && IsDigit(s[ks[m]]))
    && (forall m, n | 0 <= m < n < |ks| :: NumeralEnd(s, ks[m]) <= ks[n])
    && (forall j {:trigger Covered(s, ks, j)} | i <= j < |s| && IsDigit(s[j]) :: Covered(s, ks, j))
  }

  /** The values of the numerals that start at `ks`, in order. */
  function Values(s: string, ks: seq<nat>): (vs: seq<Money>)
    requires forall m | 0 <= m < |ks| :: ks[m] < |s| && IsDigit(s[ks[m]])
    ensures |vs| == |ks|
    ensures forall m | 0 <= m < |ks| :: vs[m] == ReadNumeral(s, ks[m]).value
  {
    if |ks| == 0 then [] else [ReadNumeral(s, ks[0]).value] + Values(s, ks[1..])
  }

  /** Where the numerals the global scan from `i` reads start. */
  function Starts(s: string, i: nat): (ks: seq<nat>)
    requires i <= |s|
    ensures forall m | 0 <= m < |ks| :: i <= ks[m] < |s| && IsDigit(s[ks[m]])
    decreases |s| - i
  {
    var k := NextDigit(s, i);
    if k == |s| then [] else [k] + Starts(s, NumeralEnd(s, k))
  }

  /** The scan's starts tile the label from `i` on. */
  lemma {:induction false} StartsTile(s: string, i: nat)
    requires i <= |s|
    ensures Tiles(s, i, Starts(s, i))
    decreases |s| - i
  {
    if HasDigitFrom(s, i) {
      var k := NextDigit(s, i);
      StartsTile(s, NumeralEnd(s, k));
      ConsTiles(s, i, Starts(s, NumeralEnd(s, k)));
    }
  }

  /** The numeral at the first digit from `i`, followed by a tiling from its
      end, tiles the label from `i`. */
  lemma ConsTiles(s: string, i: nat, rest: seq<nat>)
    requires i <= |s| && HasDigitFrom(s, i)
    requires Tiles(s, NumeralEnd(s, NextDigit(s, i)), rest)
    ensures Tiles(s, i, [NextDigit(s, i)] + rest)
  {
    var k := NextDigit(s, i);
    var e := NumeralEnd(s, k);
    var ks := [k] + rest;
    ConsOrdered(s, i, rest);
    ConsCovers(s, i, rest);
  }

  /** The numeral at the first digit from `i` ends before any of `rest`
      starts, and `rest` keeps its own order. */
  lemma ConsOrdered(s: string, i: nat, rest: seq<nat>)
    requires i <= |s| && HasDigitFrom(s, i)
    requires Tiles(s, NumeralEnd(s, NextDigit(s, i)), rest)
    ensures var ks := [NextDigit(s, i)] + rest;
      forall m, m' | 0 <= m < m' < |ks| :: NumeralEnd(s, ks[m]) <= ks[m']
  {
    var ks := [NextDigit(s, i)] + rest;
    forall m, m' | 0 <= m < m' < |ks| ensures NumeralEnd(s, ks[m]) <= ks[m'] {
      assert ks[m'] == rest[m' - 1];
      if m > 0 { assert ks[m] == rest[m - 1]; }
    }
  }

  /** Every digit from `i` lies in the first numeral or in one of `rest`. */
  lemma ConsCovers(s: string, i: nat, rest: seq<nat>)
    requires i <= |s| && HasDigitFrom(s, i)
    requires Tiles(s, NumeralEnd(s, NextDigit(s, i)), rest)
    ensures forall j | i <= j < |s| && IsDigit(s[j]) :: Covered(s, [NextDigit(s, i)] + rest, j)
  {
    var k := NextDigit(s, i);
    var e := NumeralEnd(s, k);
    var ks := [k] + rest;
    forall j | i <= j < |s| && IsDigit(s[j]) ensures Covered(s, ks, j) {
      if j < e {
        assert Inside(s, ks[0], j);
      } else {
        assert Covered(s, rest, j);
        var m :| 0 <= m < |rest| && Inside(s, rest[m], j);
        assert ks[m + 1] == rest[m];
      }
    }
  }

  /** A nonempty tiling from `i` means there is a digit from `i` on. */
  lemma TilingHasDigit(s: string, i: nat, ks: seq<nat>)
    requires Tiles(s, i, ks) && |ks| > 0
    ensures HasDigitFrom(s, i)
  {
    assert i <= ks[0] < |s| && IsDigit(s[ks[0]]);
  }

  /** No start of a tiling lies before the first digit from `i`. */
  lemma TilingStartsAtFirstDigit(s: string, i: nat, ks: seq<nat>)
    requires i <= |s| && Tiles(s, i, ks) && HasDigitFrom(s, i)
    ensures |ks| > 0 && ks[0] == NextDigit(s, i)
  {
    var k := NextDigit(s, i);
    assert Covered(s, ks, k);
    var m :| 0 <= m < |ks| && Inside(s, ks[m], k);
    TilingHeadLeast(s, i, ks, m);
  }

  /** A tiling starts with its leftmost numeral. */
  lemma TilingHeadLeast(s: string, i: nat, ks: seq<nat>, m: nat)
    requires Tiles(s, i, ks) && m < |ks|
    ensures ks[0] <= ks[m]
  {
    if m > 0 { assert NumeralEnd(s, ks[0]) <= ks[m]; }
  }

  /** Dropping the first numeral of a tiling from `i` leaves a tiling from
      that numeral's end. */
  lemma TilingTail(s: string, i: nat, ks: seq<nat>)
    requires i <= |s| && Tiles(s, i, ks) && |ks| > 0
    ensures Tiles(s, NumeralEnd(s, ks[0]), ks[1..])
  {
    var e := NumeralEnd(s, ks[0]);
    var tail := ks[1..];
    forall j | e <= j < |s| && IsDigit(s[j]) ensures Covered(s, tail, j) {
      assert Covered(s, ks, j);
      var t :| 0 <= t < |ks| && Inside(s, ks[t], j);
      assert t > 0;
      assert tail[t - 1] == ks[t];
    }
  }

  /** Numerals that tile the label from `i` are the scan's numerals: their
      values are exactly the numbers the global match returns, in order. */
  lemma {:induction false} TiledNumbers(s: string, i: nat, ks: seq<nat>)
    requires i <= |s| && Tiles(s, i, ks)
    ensures NumbersFrom(s, i) == Values(s, ks)
    decreases |s| - i
  {
    if !HasDigitFrom(s, i) {
      if |ks| > 0 { TilingHasDigit(s, i, ks); }
    } else {
      TilingStartsAtFirstDigit(s, i, ks);
      TilingTail(s, i, ks);
      var e := NumeralEnd(s, ks[0]);
      TiledNumbers(s, e, ks[1..]);
      assert NumbersFrom(s, i) == [ReadNumeral(s, ks[0]).value] + NumbersFrom(s, e);
    }
  }

  /** The global match reads the numerals that tile the label, in order. */
  lemma NumbersAreTiledNumerals(s: string)
    ensures Tiles(s, 0, Starts(s, 0))
    ensures NumbersFrom(s, 0) == Values(s, Starts(s, 0))
  {
    StartsTile(s, 0);
    TiledNumbers(s, 0, Starts(s, 0));
  }

  /** The search from `i` captures nothing exactly when no position from `i`
      on holds a marker with a digit after it. */
  lemma {:induction false} MarkerPriceMisses(s: string, i: nat, first: string, second: string)
    requires i <= |s|
    ensures MarkerPrice(s, i, first, second).None? <==> forall h | i <= h < |s| :: !MarkerHit(s, h, first, second)
    decreases |s| - i
  {
    if i < |s| {
      MarkerPriceMisses(s, i + 1, first, second);
      if MarkerHit(s, i, first, second) {
        MarkerHitCaptures(s, i, first, second);
      } else {
        MarkerMissSkips(s, i, first, second);
      }
    }
  }

  /** When `h` is the leftmost position from `i` on with a marker that has a
      digit after it, the search captures the numeral at the first digit
      after that marker. */
  lemma MarkerPriceFirstHit(s: string, i: nat, first: string, second: string, h: nat)
    requires i <= h < |s| && MarkerHit(s, h, first, second)
    requires forall g | i <= g < h :: !MarkerHit(s, g, first, second)
    ensures MarkerPrice(s, i, first, second) ==
      Some(ReadNumeral(s, NextDigit(s, MarkerAt(s, h, first, second).value)).value)
  {
    NoHitsFromForall(s, i, h, first, second);
    MarkerSkipTo(s, i, first, second, h);
    MarkerHitCaptures(s, h, first, second);
  }

  /** No position in `[i, h)` holds a marker with a digit after it. */
  predicate NoHitsBetween(s: string, i: nat, h: nat, first: string, second: string)
    decreases h - i
  {
    i >= h || (!MarkerHit(s, i, first, second) && NoHitsBetween(s, i + 1, h, first, second))
  }

  /** The quantified form of `NoHitsBetween`. */
  lemma {:induction false} NoHitsFromForall(s: string, i: nat, h: nat, first: string, second: string)
    requires forall g | i <= g < h :: !MarkerHit(s, g, first, second)
    ensures NoHitsBetween(s, i, h, first, second)
    decreases h - i
  {
    if i < h {
      NoHitsFromForall(s, i + 1, h, first, second);
    }
  }

  /** The search passes over positions without a marker hit. */
  lemma {:induction false} MarkerSkipTo(s: string, i: nat, first: string, second: string, h: nat)
    requires i <= h <= |s|
    requires NoHitsBetween(s, i, h, first, second)
    ensures MarkerPrice(s, i, first, second) == MarkerPrice(s, h, first, second)
    decreases h - i
  {
    if i < h {
      MarkerMissSkips(s, i, first, second);
      MarkerSkipTo(s, i + 1, first, second, h);
    }
  }

  /** A marker at `i` with a digit after it captures the first numeral after
      the marker. */
  lemma MarkerHitCaptures(s: string, i: nat, first: string, second: string)
    requires i < |s| && MarkerHit(s, i, first, second)
    ensures MarkerPrice(s, i, first, second) ==
      Some(ReadNumeral(s, NextDigit(s, MarkerAt(s, i, first, second).value)).value)
  {
    var e := MarkerAt(s, i, first, second).value;
    assert NumeralFrom(s, e) == Some(ReadNumeral(s, NextDigit(s, e)));
  }

  /** Without a marker hit at `i` the search moves on to `i + 1`. */
  lemma MarkerMissSkips(s: string, i: nat, first: string, second: string)
    requires i < |s| && !MarkerHit(s, i, first, second)
    ensures MarkerPrice(s, i, first, second) == MarkerPrice(s, i + 1, first, second)
  {
  }

  /** Without a marker capture, the one-way price is the label's first
      number, and the round-trip price its second number, or its first when
      it holds only one. */
  lemma PositionalFallback(text: string)
    requires !IsBlank(text)
    ensures var t := StripCommas(text); var ns := NumbersFrom(t, 0);
      MarkerPrice(t, 0, "one", "way").None? ==>
        LabelPrices(text).oneWay == (if |ns| > 0 then Some(ns[0]) else None)
    ensures var t := StripCommas(text); var ns := NumbersFrom(t, 0);
      MarkerPrice(t, 0, "round", "trip").None? ==>
        LabelPrices(text).roundTrip ==
          (if |ns| > 1 then Some(ns[1]) else if |ns| == 1 then Some(ns[0]) else None)
  {
  }
}
