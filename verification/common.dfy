/** Shared vocabulary of the booking model: optional values, the ordered
    fallback chains the pricing code is built from, money and whitespace. */
module Common {

  /** Money is a decimal amount in the single display currency. */
  type Money = real

  /** A value that may be absent, the model of a JavaScript `number | undefined`.
      Absence is kept distinct from zero throughout the model. */
  datatype Option<+T> = None | Some(value: T) {

    /** The value, or `default` when absent. */
    function GetOr(default: T): T {
      match this
      case Some(v) => v
      case None => default
    }

    /** JavaScript's nullish coalescing `this ?? other`. */
    function OrElse(other: Option<T>): Option<T> {
      if Some? then this else other
    }
  }

  /** `r` is what an ordered fallback chain over `xs` produces: the first
      defined entry, or None exactly when every entry is absent. */
  ghost predicate IsFirstDefined<T>(xs: seq<Option<T>>, r: Option<T>) {
    if r.None? then
      forall i | 0 <= i < |xs| :: xs[i].None?
    else
      exists i | 0 <= i < |xs| :: xs[i] == r && forall j | 0 <= j < i :: xs[j].None?
  }

  /** Tries the sources of `xs` in order and keeps the first defined one. */
  function Coalesce<T>(xs: seq<Option<T>>): (r: Option<T>)
    ensures IsFirstDefined(xs, r)
  {
    if |xs| == 0 then None
    else
      var rest := Coalesce(xs[1..]);
      assert forall i | 1 <= i < |xs| :: xs[i] == xs[1..][i - 1];
      xs[0].OrElse(rest)
  }

  /** The first defined entry of a chain is unique. */
  lemma FirstDefinedUnique<T>(xs: seq<Option<T>>, r: Option<T>, r': Option<T>)
    requires IsFirstDefined(xs, r) && IsFirstDefined(xs, r')
    ensures r == r'
  {
    if r.Some? && r'.Some? {
      var i :| 0 <= i < |xs| && xs[i] == r && forall j | 0 <= j < i :: xs[j].None?;
      var i' :| 0 <= i' < |xs| && xs[i'] == r' && forall j | 0 <= j < i' :: xs[j].None?;
      assert !(i < i') && !(i' < i);
    }
  }

  /** A defined result of a chain is one of the chain's entries. */
  lemma FirstDefinedIsListed<T>(xs: seq<Option<T>>, r: Option<T>)
    requires IsFirstDefined(xs, r) && r.Some?
    ensures r in xs
  {
    var i :| 0 <= i < |xs| && xs[i] == r && forall j | 0 <= j < i :: xs[j].None?;
  }

  /** Coalescing four sources is the `??` chain written out. */
  lemma CoalesceChain4<T>(a: Option<T>, b: Option<T>, c: Option<T>, d: Option<T>)
    ensures Coalesce([a, b, c, d]) == a.OrElse(b).OrElse(c).OrElse(d)
  {
    assert [d][1..] == [];
    assert Coalesce([d]) == d;
    assert [c, d][1..] == [d];
    assert Coalesce([c, d]) == c.OrElse(d);
    assert [b, c, d][1..] == [c, d];
    assert Coalesce([b, c, d]) == b.OrElse(c.OrElse(d));
    assert [a, b, c, d][1..] == [b, c, d];
  }

  /** A chain of four `??` produces the first defined of its operands. */
  lemma FirstDefinedChain4<T>(a: Option<T>, b: Option<T>, c: Option<T>, d: Option<T>)
    ensures IsFirstDefined([a, b, c, d], a.OrElse(b).OrElse(c).OrElse(d))
  {
    var xs := [a, b, c, d];
    assert xs[0] == a && xs[1] == b && xs[2] == c && xs[3] == d;
  }

  /** `\d`, an ASCII decimal digit. */
  predicate IsDigit(c: char) {
    '0' <= c <= '9'
  }

  predicate AllDigits(d: string) {
    forall i | 0 <= i < |d| :: IsDigit(d[i])
  }

  /** The decimal value of a run of digits. */
  function DigitsValue(d: string): nat
    requires AllDigits(d)
  {
    if |d| == 0 then 0
    else DigitsValue(d[..|d| - 1]) * 10 + (d[|d| - 1] as int - '0' as int)
  }

  /** ASCII lower-casing, the case folding of a case-insensitive pattern on
      these characters. */
  function LowerChar(c: char): char {
    if 'A' <= c <= 'Z' then (c as int + 32) as char else c
  }

  function ToLower(s: string): (t: string)
    ensures |t| == |s|
    ensures forall i | 0 <= i < |s| :: t[i] == LowerChar(s[i])
  {
    seq(|s|, i requires 0 <= i < |s| => LowerChar(s[i]))
  }

  /** Whitespace as JavaScript's `String.prototype.trim` removes it (the
      ASCII and Latin-1 part of the set). */
  predicate IsSpace(c: char) {
    c == ' ' || c == '\t' || c == '\n' || c == '\r' || c == '\U{000B}' || c == '\U{000C}' || c == '\U{00A0}'
  }

  /** `s.trim()`: the string without leading and trailing whitespace.
      `TrimSpec` states what it removes. */
  function Trim(s: string): (t: string)
    ensures |t| <= |s|
  {
    TrimEnd(TrimStart(s))
  }

  function TrimStart(s: string): (t: string)
    ensures |t| <= |s|
  {
    if |s| > 0 && IsSpace(s[0]) then TrimStart(s[1..]) else s
  }

  function TrimEnd(s: string): (t: string)
    ensures |t| <= |s|
  {
    if |s| > 0 && IsSpace(s[|s| - 1]) then TrimEnd(s[..|s| - 1]) else s
  }

  /** `TrimStart` removes exactly the leading whitespace. */
  lemma {:induction false} TrimStartSpec(s: string)
    ensures var t := TrimStart(s);
      && t == s[|s| - |t|..]
      && (|t| == 0 <==> forall i | 0 <= i < |s| :: IsSpace(s[i]))
      && (|t| > 0 ==> !IsSpace(t[0]))
      && forall i | 0 <= i < |s| - |t| :: IsSpace(s[i])
  {
    if |s| > 0 && IsSpace(s[0]) {
      TrimStartSpec(s[1..]);
      assert forall i | 1 <= i < |s| :: s[i] == s[1..][i - 1];
    }
  }

  /** `TrimEnd` removes exactly the trailing whitespace. */
  lemma {:induction false} TrimEndSpec(s: string)
    ensures var t := TrimEnd(s);
      && t == s[..|t|]
      && (|t| == 0 <==> forall i | 0 <= i < |s| :: IsSpace(s[i]))
      && (|t| > 0 ==> !IsSpace(t[|t| - 1]))
      && forall i | |t| <= i < |s| :: IsSpace(s[i])
  {
    if |s| > 0 && IsSpace(s[|s| - 1]) {
      TrimEndSpec(s[..|s| - 1]);
    }
  }

  /** `Trim` removes the leading and the trailing whitespace and nothing
      else: the result is empty exactly when `s` is all whitespace, and
      otherwise starts and ends with a non-space. */
  lemma TrimSpec(s: string)
    ensures var t := Trim(s);
      && (|t| == 0 <==> forall i | 0 <= i < |s| :: IsSpace(s[i]))
      && (|t| > 0 ==> !IsSpace(t[0]) && !IsSpace(t[|t| - 1]))
  {
    var u := TrimStart(s);
    TrimStartSpec(s);
    TrimEndSpec(u);
    var t := TrimEnd(u);
    if |t| > 0 {
      assert t[0] == u[0];
    }
  }

  /** JavaScript's `length`: the number of UTF-16 code units, two for every
      character beyond the Basic Multilingual Plane. */
  function Utf16Length(s: string): (n: nat)
    ensures |s| <= n <= 2 * |s|
  {
    if |s| == 0 then 0
    else Utf16Length(s[..|s| - 1]) + (if s[|s| - 1] as int > 0xFFFF then 2 else 1)
  }

  /** Within the Basic Multilingual Plane the two lengths agree, and only
      there. */
  lemma {:induction false} Utf16LengthBmp(s: string)
    ensures Utf16Length(s) == |s| <==> forall i | 0 <= i < |s| :: s[i] as int <= 0xFFFF
  {
    if |s| > 0 {
      var p := s[..|s| - 1];
      Utf16LengthBmp(p);
      assert forall i | 0 <= i < |p| :: p[i] == s[i];
    }
  }

  /** `s.trim().length === 0`. */
  predicate IsBlank(s: string) {
    |Trim(s)| == 0
  }

  /** A string is blank exactly when it is all whitespace. */
  lemma BlankIffAllSpace(s: string)
    ensures IsBlank(s) <==> forall i | 0 <= i < |s| :: IsSpace(s[i])
  {
    TrimSpec(s);
  }
}
