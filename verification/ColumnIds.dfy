/** Spreadsheet column names: bijective base-26 numerals over A to Z, for indexes counted from 0. */
module ColumnIds {

  const NUMBER_OF_CHARACTERS := 26

  /** The character code of A. */
  const CHARACTER_OFFSET := 65

  /** The numeral of v; zero is the empty one. */
  function Letters(v: nat): string {
    if v == 0 then ""
    else Letters((v - 1) / NUMBER_OF_CHARACTERS) + [((v - 1) % NUMBER_OF_CHARACTERS + CHARACTER_OFFSET) as char]
  }

  /** The number written by any string; only strings over A to Z are numerals. */
  function Number(s: string): int {
    if |s| == 0 then 0
    else NUMBER_OF_CHARACTERS * Number(s[..|s| - 1]) + (s[|s| - 1] as int - CHARACTER_OFFSET + 1)
  }

  predicate IsNumeral(s: string) {
    forall i :: 0 <= i < |s| ==> 'A' <= s[i] <= 'Z'
  }

  function Power(n: nat): nat {
    if n == 0 then 1 else NUMBER_OF_CHARACTERS * Power(n - 1)
  }

  // ---------------------------------------------------------------------------
  // The two conversions
  // ---------------------------------------------------------------------------

  method ColumnIndexAsCharacters(columnIndex: nat) returns (columnCharacters: string)
    ensures columnCharacters == Letters(columnIndex + 1)
  {
    columnCharacters := "";
    var value := columnIndex + 1;
    while true
      invariant value > 0
      invariant Letters(columnIndex + 1) == Letters(value) + columnCharacters
      decreases value
    {
      var remainder := value % NUMBER_OF_CHARACTERS;
      var quotient := value / NUMBER_OF_CHARACTERS;
      assert (value - 1) / NUMBER_OF_CHARACTERS == if remainder != 0 then quotient else quotient - 1;
      assert (value - 1) % NUMBER_OF_CHARACTERS == if remainder != 0 then remainder - 1 else NUMBER_OF_CHARACTERS - 1;
      ghost var last := ((value - 1) % NUMBER_OF_CHARACTERS + CHARACTER_OFFSET) as char;
      assert Letters(value) == Letters((value - 1) / NUMBER_OF_CHARACTERS) + [last];
      if remainder != 0 {
        columnCharacters := [(remainder + CHARACTER_OFFSET - 1) as char] + columnCharacters;
      } else {
        quotient := quotient - 1;
        columnCharacters := ['Z'] + columnCharacters;
      }
      value := quotient;
      if value <= 0 { break; }
    }
    assert Letters(value) + columnCharacters == columnCharacters;
  }

  lemma ShiftedPower(v: int, c: int, n: nat)
    requires n > 0
    ensures (NUMBER_OF_CHARACTERS * v + c) * Power(n - 1) == v * Power(n) + c * Power(n - 1)
  {
    var p := Power(n - 1);
    assert v * Power(n) == v * (NUMBER_OF_CHARACTERS * p);
    assert (NUMBER_OF_CHARACTERS * v + c) * p == NUMBER_OF_CHARACTERS * v * p + c * p;
  }

  method ColumnCharactersAsIndex(columnCharacters: string) returns (r: int)
    ensures r == Number(columnCharacters) - 1
  {
    var columnIndex := 0;
    var n := |columnCharacters|;
    for position := 0 to n
      invariant columnIndex == Number(columnCharacters[..position]) * Power(n - position)
    {
      var charCode := columnCharacters[position] as int;
      var characterIndex := charCode - CHARACTER_OFFSET + 1;
      var factor := Power(n - 1 - position);
      assert columnCharacters[..position + 1][..position] == columnCharacters[..position];
      ShiftedPower(Number(columnCharacters[..position]), characterIndex, n - position);
      columnIndex := columnIndex + characterIndex * factor;
    }
    assert columnCharacters[..n] == columnCharacters;
    return columnIndex - 1;
  }

  // ---------------------------------------------------------------------------
  // A bijection that keeps the order
  // ---------------------------------------------------------------------------

  lemma {:induction false} LettersAreNumeral(v: nat)
    ensures IsNumeral(Letters(v)) && Number(Letters(v)) == v
    ensures |Letters(v)| > 0 <==> v > 0
    decreases v
  {
    if v > 0 {
      LettersAreNumeral((v - 1) / NUMBER_OF_CHARACTERS);
      assert Letters(v)[..|Letters(v)| - 1] == Letters((v - 1) / NUMBER_OF_CHARACTERS);
    }
  }

  lemma {:induction false} NumeralsAreLetters(s: string)
    requires IsNumeral(s)
    ensures Number(s) >= 0 && Letters(Number(s)) == s
    decreases |s|
  {
    if |s| > 0 {
      var prefix, c := s[..|s| - 1], s[|s| - 1] as int - CHARACTER_OFFSET;
      NumeralsAreLetters(prefix);
      assert Number(s) - 1 == NUMBER_OF_CHARACTERS * Number(prefix) + c;
      assert (Number(s) - 1) / NUMBER_OF_CHARACTERS == Number(prefix) && (Number(s) - 1) % NUMBER_OF_CHARACTERS == c;
      assert s == prefix + [s[|s| - 1]];
    }
  }

  /** The two conversions are inverse to each other between indexes and non-empty names. */
  lemma ConversionsAreInverse(index: nat, name: string)
    requires IsNumeral(name) && |name| > 0
    ensures IsNumeral(Letters(index + 1)) && |Letters(index + 1)| > 0
    ensures Number(Letters(index + 1)) - 1 == index
    ensures Number(name) - 1 >= 0 && Letters(Number(name) - 1 + 1) == name
  {
    LettersAreNumeral(index + 1);
    NumeralsAreLetters(name);
  }

  /** Shorter names first, names of one length alphabetically. */
  predicate ShortLexLess(s: string, t: string) {
    |s| < |t| || (|s| == |t| && exists k :: 0 <= k < |s| && s[..k] == t[..k] && s[k] < t[k])
  }

  /** The number written by n letters A. */
  function Least(n: nat): nat {
    if n == 0 then 0 else NUMBER_OF_CHARACTERS * Least(n - 1) + 1
  }

  lemma {:induction false} NumberBetween(s: string)
    requires IsNumeral(s)
    ensures Least(|s|) <= Number(s) <= NUMBER_OF_CHARACTERS * Least(|s|)
    decreases |s|
  {
    if |s| > 0 { NumberBetween(s[..|s| - 1]); }
  }

  lemma {:induction false} LeastGrows(m: nat, n: nat)
    requires m < n
    ensures NUMBER_OF_CHARACTERS * Least(m) < Least(n)
    decreases n
  {
    if m < n - 1 { LeastGrows(m, n - 1); }
  }

  lemma {:induction false} NumberIsMonotonic(s: string, t: string)
    requires IsNumeral(s) && IsNumeral(t) && ShortLexLess(s, t)
    ensures Number(s) < Number(t)
    decreases |s|
  {
    if |s| < |t| {
      NumberBetween(s);
      NumberBetween(t);
      LeastGrows(|s|, |t|);
    } else {
      var k :| 0 <= k < |s| && s[..k] == t[..k] && s[k] < t[k];
      var n := |s| - 1;
      if k < n {
        assert s[..n][..k] == s[..k] && t[..n][..k] == t[..k];
        NumberIsMonotonic(s[..n], t[..n]);
      }
    }
  }

  lemma {:induction false} ShortLexIsTotal(s: string, t: string)
    ensures s == t || ShortLexLess(s, t) || ShortLexLess(t, s)
    decreases |s|
  {
    if |s| == |t| && |s| > 0 {
      var n := |s| - 1;
      ShortLexIsTotal(s[..n], t[..n]);
      assert s == s[..n] + [s[n]] && t == t[..n] + [t[n]];
      if s[..n] != t[..n] {
        var less, more := if ShortLexLess(s[..n], t[..n]) then s else t, if ShortLexLess(s[..n], t[..n]) then t else s;
        var k :| 0 <= k < n && less[..n][..k] == more[..n][..k] && less[k] < more[k];
        assert less[..k] == less[..n][..k] && more[..k] == more[..n][..k];
      }
    }
  }

  /** Index order is the order of names. */
  lemma IndexOrderIsNameOrder(i: nat, j: nat)
    ensures i < j <==> ShortLexLess(Letters(i + 1), Letters(j + 1))
  {
    LettersAreNumeral(i + 1);
    LettersAreNumeral(j + 1);
    ShortLexIsTotal(Letters(i + 1), Letters(j + 1));
    if ShortLexLess(Letters(i + 1), Letters(j + 1)) { NumberIsMonotonic(Letters(i + 1), Letters(j + 1)); }
    if ShortLexLess(Letters(j + 1), Letters(i + 1)) { NumberIsMonotonic(Letters(j + 1), Letters(i + 1)); }
  }
}
