/** The seat-identifier check of the booking modal: an identifier is accepted
    when it has the 8-4-4-4-12 hexadecimal shape of a UUID, with version digit
    1 to 5 and variant digit 8, 9, a or b, letters in either case. */
module Uuid {
  import opened Common

  /** `[0-9a-f]` matched case-insensitively. */
  predicate IsHexDigit(c: char) {
    '0' <= c <= '9' || 'a' <= c <= 'f' || 'A' <= c <= 'F'
  }

  /** The character class the pattern demands at one position. */
  datatype CharClass = Hex | Dash | Version | Variant

  /** The class demanded at position `i` of a 36-character identifier. */
  function ClassAt(i: nat): CharClass {
    if i == 8 || i == 13 || i == 18 || i == 23 then Dash
    else if i == 14 then Version
    else if i == 19 then Variant
    else Hex
  }

  /** Membership in a class, case-insensitively. */
  predicate InClass(c: char, k: CharClass) {
    match k
    case Hex => IsHexDigit(c)
    case Dash => c == '-'
    case Version => '1' <= c <= '5'
    case Variant => c == '8' || c == '9' || c == 'a' || c == 'b' || c == 'A' || c == 'B'
  }

  /** Membership in a class as the pattern is written, lower case only. */
  predicate InLowerClass(c: char, k: CharClass) {
    match k
    case Hex => '0' <= c <= '9' || 'a' <= c <= 'f'
    case Dash => c == '-'
    case Version => '1' <= c <= '5'
    case Variant => c == '8' || c == '9' || c == 'a' || c == 'b'
  }

  /** `isValidUUID`: the anchored pattern, read one position at a time. An
      accepted identifier is 36 characters long, has its dashes exactly at
      positions 8, 13, 18 and 23 and hexadecimal digits everywhere else. */
  function IsValidUuid(s: string): (r: bool)
    ensures r ==> |s| == 36
    ensures r ==> forall i | 0 <= i < |s| ::
      (s[i] == '-' <==> i == 8 || i == 13 || i == 18 || i == 23) && (s[i] != '-' ==> IsHexDigit(s[i]))
  {
    |s| == 36 && forall i | 0 <= i < 36 :: InClass(s[i], ClassAt(i))
  }

  /** The lower-case pattern without the case-insensitivity flag. */
  predicate IsLowerUuid(s: string) {
    |s| == 36 && forall i | 0 <= i < 36 :: InLowerClass(s[i], ClassAt(i))
  }

  predicate AllHex(s: string) {
    forall i | 0 <= i < |s| :: IsHexDigit(s[i])
  }

  /** The pattern read the way it is written: five dash-separated groups of
      8, 4, 4, 4 and 12 hex digits, the third opening with the version digit
      and the fourth with the variant digit. */
  predicate MatchesGroups(s: string) {
    && |s| == 36
    && AllHex(s[..8]) && s[8] == '-'
    && AllHex(s[9..13]) && s[13] == '-'
    && '1' <= s[14] <= '5' && AllHex(s[15..18]) && s[18] == '-'
    && InClass(s[19], Variant) && AllHex(s[20..23]) && s[23] == '-'
    && AllHex(s[24..])
  }

  /** The positional reading and the grouped reading accept the same strings. */
  lemma ValidUuidIffGroups(s: string)
    ensures IsValidUuid(s) <==> MatchesGroups(s)
  {
    if IsValidUuid(s) {
      forall i | 0 <= i < 8 ensures IsHexDigit(s[..8][i]) { assert InClass(s[i], ClassAt(i)); }
      forall i | 0 <= i < 4 ensures IsHexDigit(s[9..13][i]) { assert InClass(s[9 + i], ClassAt(9 + i)); }
      forall i | 0 <= i < 3 ensures IsHexDigit(s[15..18][i]) { assert InClass(s[15 + i], ClassAt(15 + i)); }
      forall i | 0 <= i < 3 ensures IsHexDigit(s[20..23][i]) { assert InClass(s[20 + i], ClassAt(20 + i)); }
      forall i | 0 <= i < 12 ensures IsHexDigit(s[24..][i]) { assert InClass(s[24 + i], ClassAt(24 + i)); }
      assert InClass(s[8], ClassAt(8)) && InClass(s[13], ClassAt(13)) && InClass(s[14], ClassAt(14));
      assert InClass(s[18], ClassAt(18)) && InClass(s[19], ClassAt(19)) && InClass(s[23], ClassAt(23));
    }
    if MatchesGroups(s) {
      forall i | 0 <= i < 36 ensures InClass(s[i], ClassAt(i)) {
        if i < 8 { assert s[i] == s[..8][i]; }
        else if 9 <= i < 13 { assert s[i] == s[9..13][i - 9]; }
        else if 15 <= i < 18 { assert s[i] == s[15..18][i - 15]; }
        else if 20 <= i < 23 { assert s[i] == s[20..23][i - 20]; }
        else if 24 <= i { assert s[i] == s[24..][i - 24]; }
      }
    }
  }

  /** The case-insensitive flag: an identifier is accepted exactly when its
      lower-cased form matches the lower-case pattern. */
  lemma ValidUuidIgnoresCase(s: string)
    ensures IsValidUuid(s) <==> IsLowerUuid(ToLower(s))
  {
    var t := ToLower(s);
    if |s| == 36 {
      forall i | 0 <= i < 36
        ensures InClass(s[i], ClassAt(i)) <==> InLowerClass(t[i], ClassAt(i))
      {
        assert t[i] == LowerChar(s[i]);
      }
    }
  }

  /** Lower-casing never turns an accepted identifier into a rejected one. */
  lemma ValidUuidStableUnderLower(s: string)
    requires IsValidUuid(s)
    ensures IsValidUuid(ToLower(s))
  {
    var t := ToLower(s);
    forall i | 0 <= i < 36 ensures InClass(t[i], ClassAt(i)) {
      assert t[i] == LowerChar(s[i]);
      assert InClass(s[i], ClassAt(i));
    }
  }
}
