/** Spreadsheet columns: the letters a reader sees ("A", "Z", "AA") and the numbers
    the code counts with. The two are a bijection between the non-empty A-Z strings
    and the positive integers, which every column addition relies on.
 */
module Columns {

  /** Column letters in their normal form: only A-Z. */
  predicate IsLetters(s: string) {
    forall i :: 0 <= i < |s| ==> 'A' <= s[i] <= 'Z'
  }

  function Upper(ch: char): char {
    if 'a' <= ch <= 'z' then (ch as int - 32) as char else ch
  }

  function Uppercase(s: string): string {
    seq(|s|, i requires 0 <= i < |s| => Upper(s[i]))
  }

  /** Bijective base 26: the number of a column. */
  function Number(letters: string): int {
    if letters == "" then 0
    else Number(letters[..|letters| - 1]) * 26 + (letters[|letters| - 1] as int - 64)
  }

  /** The letters of a column number; 0 has none. */
  function Letters(n: nat): string {
    if n == 0 then "" else Letters((n - 1) / 26) + [(65 + (n - 1) % 26) as char]
  }

  /** The loop that reads letters left to right computes Number. */
  method ColumnNumber(letters: string) returns (n: int)
    ensures n == Number(Uppercase(letters))
  {
    var upper := Uppercase(letters);
    n := 0;
    for i := 0 to |upper|
      invariant n == Number(upper[..i])
    {
      assert upper[..i + 1][..i] == upper[..i];
      n := n * 26 + (upper[i] as int - 64);
    }
    assert upper[..|upper|] == upper;
  }

  /** The loop that peels off the last letter first computes Letters. */
  method ColumnLetters(n: nat) returns (letters: string)
    ensures letters == Letters(n)
  {
    letters := "";
    var left := n;
    while left != 0
      invariant Letters(n) == Letters(left) + letters
    {
      var rest := (left - 1) % 26;
      assert Letters(left) + letters == Letters((left - 1) / 26) + ([(65 + rest) as char] + letters);
      left, letters := (left - 1) / 26, [(65 + rest) as char] + letters;
    }
  }

  lemma {:induction false} NumberOfLetters(n: nat)
    ensures IsLetters(Letters(n)) && Number(Letters(n)) == n
    ensures n > 0 ==> Letters(n) != ""
  {
    if n > 0 {
      var front, d := Letters((n - 1) / 26), (n - 1) % 26;
      NumberOfLetters((n - 1) / 26);
    }
  }

  lemma {:induction false} LettersOfNumber(s: string)
    requires IsLetters(s)
    ensures Number(s) >= 0 && Letters(Number(s)) == s
    ensures s != "" ==> Number(s) > 0
  {
    if s != "" {
      var front, ch := s[..|s| - 1], s[|s| - 1];
      LettersOfNumber(front);
      assert s == front + [ch];
      var n := Number(s);
      assert (n - 1) / 26 == Number(front) && (n - 1) % 26 == ch as int - 65;
    }
  }

  /** Two columns have the same letters only when they are the same column. */
  lemma LettersInjective(m: nat, n: nat)
    requires Letters(m) == Letters(n)
    ensures m == n
  {
    NumberOfLetters(m);
    NumberOfLetters(n);
  }
}
