/** The string operations of JavaScript that the modelled code relies on. */
module Text {
  /** The characters `trim` and `trimStart` remove: WhiteSpace and LineTerminator of ECMA-262. */
  predicate IsSpace(c: char) {
    var n := c as int;
    || 9 <= n <= 13 || n == 32 || n == 0xA0 || n == 0x1680 || 0x2000 <= n <= 0x200A
    || n == 0x2028 || n == 0x2029 || n == 0x202F || n == 0x205F || n == 0x3000 || n == 0xFEFF
  }

  /** Lower case for ASCII letters. */
  function LowerChar(c: char): char {
    if 'A' <= c <= 'Z' then (c as int - 'A' as int + 'a' as int) as char else c
  }

  lemma CapitalsInOrder(i: nat)
    requires i < 26
    ensures "ABCDEFGHIJKLMNOPQRSTUVWXYZ"[i] as int == 65 + i
    ensures "abcdefghijklmnopqrstuvwxyz"[i] as int == 97 + i
  {
  }

  lemma CapitalsAre(c: char)
    ensures c in "ABCDEFGHIJKLMNOPQRSTUVWXYZ" <==> 'A' <= c <= 'Z'
  {
    if 'A' <= c <= 'Z' {
      CapitalsInOrder(c as int - 65);
    }
    if i :| 0 <= i < 26 && "ABCDEFGHIJKLMNOPQRSTUVWXYZ"[i] == c {
      CapitalsInOrder(i);
    }
  }

  lemma SmallLettersAre(c: char)
    ensures c in "abcdefghijklmnopqrstuvwxyz" <==> 'a' <= c <= 'z'
  {
    if 'a' <= c <= 'z' {
      CapitalsInOrder(c as int - 97);
    }
    if i :| 0 <= i < 26 && "abcdefghijklmnopqrstuvwxyz"[i] == c {
      CapitalsInOrder(i);
    }
  }

  lemma DigitsAre(c: char)
    ensures c in "0123456789" <==> '0' <= c <= '9'
  {
    if '0' <= c <= '9' {
      assert "0123456789"[c as int - 48] == c;
    }
  }

  /** Each of the 26 capitals becomes the letter at its place, and nothing else changes. */
  lemma LowerCharMeans(c: char)
    ensures forall i :: 0 <= i < 26 ==>
              LowerChar("ABCDEFGHIJKLMNOPQRSTUVWXYZ"[i]) == "abcdefghijklmnopqrstuvwxyz"[i]
    ensures c !in "ABCDEFGHIJKLMNOPQRSTUVWXYZ" ==> LowerChar(c) == c
  {
    forall i | 0 <= i < 26
      ensures LowerChar("ABCDEFGHIJKLMNOPQRSTUVWXYZ"[i]) == "abcdefghijklmnopqrstuvwxyz"[i]
    {
      CapitalsInOrder(i);
    }
    CapitalsAre(c);
  }

  /** Tab to carriage return, the space and the space separators, the line separators and the mark U+FEFF. */
  lemma SpacesAre(c: char)
    ensures IsSpace(c) <==>
            || c in "\U{9}\U{A}\U{B}\U{C}\U{D}\U{20}\U{A0}\U{1680}"
            || c in "\U{2000}\U{2001}\U{2002}\U{2003}\U{2004}\U{2005}\U{2006}\U{2007}\U{2008}\U{2009}\U{200A}"
            || c in "\U{2028}\U{2029}\U{202F}\U{205F}\U{3000}\U{FEFF}"
  {
    var n := c as int;
    assert c in "\U{9}\U{A}\U{B}\U{C}\U{D}\U{20}\U{A0}\U{1680}" <==>
        n in {9, 10, 11, 12, 13, 0x20, 0xA0, 0x1680};
  }

  function TrimStart(s: string): string {
    if s != [] && IsSpace(s[0]) then TrimStart(s[1..]) else s
  }

  function Join(parts: seq<string>, separator: string): string {
    if parts == [] then ""
    else if |parts| == 1 then parts[0]
    else parts[0] + separator + Join(parts[1..], separator)
  }

  /** The texts of a stream of chunks, put together. */
  function Concat(parts: seq<string>): string {
    if parts == [] then "" else Concat(parts[..|parts| - 1]) + parts[|parts| - 1]
  }

  lemma {:induction false} ConcatCons(parts: seq<string>)
    requires parts != []
    ensures Concat(parts) == parts[0] + Concat(parts[1..])
  {
    var n := |parts| - 1;
    var front, rest, last := parts[..n], parts[1..], parts[n];
    assert Concat(parts) == Concat(front) + last;
    if n == 0 {
      assert front == [] && rest == [];
      assert Concat(parts) == parts[0];
    } else {
      ConcatCons(front);
      assert front[1..] == rest[..n - 1] && rest[n - 1] == last && front[0] == parts[0];
      assert Concat(rest) == Concat(front[1..]) + last;
      assert parts[0] + Concat(front[1..]) + last == parts[0] + (Concat(front[1..]) + last);
    }
  }

  lemma {:induction false} TrimStartShrinks(s: string)
    ensures |TrimStart(s)| <= |s|
    ensures TrimStart(s) == s <==> s == "" || !IsSpace(s[0])
    ensures |TrimStart(s)| == |s| ==> TrimStart(s) == s
  {
    if s != [] && IsSpace(s[0]) {
      TrimStartShrinks(s[1..]);
    }
  }

  predicate OccursAt(text: string, word: string, i: nat) {
    i + |word| <= |text| && text[i..i + |word|] == word
  }

  /** `word` occurs somewhere in `text`. */
  predicate Contains(text: string, word: string) {
    exists i :: 0 <= i <= |text| && OccursAt(text, word, i)
  }

  // ----- Decimal numerals -----

  function Digit(d: nat): char
    requires d < 10
  {
    (('0' as int) + d) as char
  }

  function Decimal(n: nat): string {
    if n < 10 then [Digit(n)] else Decimal(n / 10) + [Digit(n % 10)]
  }

  function NumeralValue(s: string): int {
    if s == "" then 0 else 10 * NumeralValue(s[..|s| - 1]) + (s[|s| - 1] as int - '0' as int)
  }

  lemma {:induction false} DecimalValue(n: nat)
    ensures NumeralValue(Decimal(n)) == n
  {
    if n < 10 {
      assert NumeralValue("") == 0;
      assert Decimal(n)[..0] == "";
    } else {
      DecimalValue(n / 10);
      assert Decimal(n)[..|Decimal(n)| - 1] == Decimal(n / 10);
    }
  }

  /** Different numbers have different numerals. */
  lemma DecimalInjective(m: nat, n: nat)
    requires Decimal(m) == Decimal(n)
    ensures m == n
  {
    DecimalValue(m);
    DecimalValue(n);
  }
}
