/**
 * The PHP string and number built-ins that the wake-on-LAN core uses, restricted
 * to the behaviour the core relies on. PHP strings are byte strings; here a
 * string is a `seq<char>` and only ASCII characters are treated specially.
 */
module PhpStrings {

  newtype byte = x: int | 0 <= x < 256

  // ---------------------------------------------------------------------------
  // strtoupper and str_replace on single characters

  /** strtoupper on one character: ASCII a-z become A-Z, everything else is kept. */
  function UpperChar(c: char): char {
    if 'a' <= c <= 'z' then (c as int - 32) as char else c
  }

  function StrToUpper(s: string): string {
    seq(|s|, i requires 0 <= i < |s| => UpperChar(s[i]))
  }

  /** str_replace(from, to, s) where both needles are single characters. */
  function StrReplaceChar(from: char, to: char, s: string): string {
    seq(|s|, i requires 0 <= i < |s| => if s[i] == from then to else s[i])
  }

  // ---------------------------------------------------------------------------
  // explode and implode

  /**
   * explode(sep, s): the pieces of s between the occurrences of sep, in order.
   * The empty string gives one empty piece, as in PHP.
   */
  function Explode(sep: char, s: string): (pieces: seq<string>)
    ensures |pieces| >= 1
  {
    if s == [] then [[]]
    else
      var rest := Explode(sep, s[1..]);
      if s[0] == sep then [[]] + rest else [[s[0]] + rest[0]] + rest[1..]
  }

  /** implode(sep, pieces): the pieces joined with sep between neighbours. */
  function Implode(sep: char, pieces: seq<string>): string
    requires |pieces| >= 1
  {
    if |pieces| == 1 then pieces[0] else pieces[0] + [sep] + Implode(sep, pieces[1..])
  }

  /** Joining the pieces again gives back the string, and no piece holds the separator. */
  lemma {:induction false} ImplodeExplode(sep: char, s: string)
    ensures Implode(sep, Explode(sep, s)) == s
    ensures forall i | 0 <= i < |Explode(sep, s)| :: sep !in Explode(sep, s)[i]
  {
    if s != [] {
      ImplodeExplode(sep, s[1..]);
      var rest := Explode(sep, s[1..]);
      if s[0] == sep {
        assert Explode(sep, s) == [[]] + rest;
        assert ([[]] + rest)[1..] == rest;
        assert Implode(sep, [[]] + rest) == [] + [sep] + Implode(sep, rest);
        assert forall i | 1 <= i < |rest| + 1 :: ([[]] + rest)[i] == rest[i - 1];
      } else {
        var pieces := [[s[0]] + rest[0]] + rest[1..];
        assert Explode(sep, s) == pieces;
        assert pieces[1..] == rest[1..];
        if |rest| == 1 {
          assert Implode(sep, rest) == rest[0];
        } else {
          assert Implode(sep, rest) == rest[0] + [sep] + Implode(sep, rest[1..]);
        }
        assert s == [s[0]] + s[1..];
        assert forall i | 1 <= i < |pieces| :: pieces[i] == rest[i];
        assert sep !in rest[0];
      }
    }
  }

  /** Splitting at the first separator: the piece before it, then the pieces of the rest. */
  lemma {:induction false} ExplodeAtSeparator(sep: char, a: string, b: string)
    requires sep !in a
    ensures Explode(sep, a + [sep] + b) == [a] + Explode(sep, b)
  {
    if a == [] {
      assert a + [sep] + b == [sep] + b;
      assert ([sep] + b)[1..] == b;
    } else {
      assert (a + [sep] + b)[1..] == a[1..] + [sep] + b;
      ExplodeAtSeparator(sep, a[1..], b);
      assert [a[0]] + a[1..] == a;
    }
  }

  /** A string without the separator is a single piece. */
  lemma {:induction false} ExplodeWithoutSeparator(sep: char, a: string)
    requires sep !in a
    ensures Explode(sep, a) == [a]
  {
    if a != [] {
      ExplodeWithoutSeparator(sep, a[1..]);
      assert [a[0]] + a[1..] == a;
    }
  }

  /** Splitting a join of separator-free pieces gives back the pieces. */
  lemma {:induction false} ExplodeImplode(sep: char, pieces: seq<string>)
    requires |pieces| >= 1
    requires forall i | 0 <= i < |pieces| :: sep !in pieces[i]
    ensures Explode(sep, Implode(sep, pieces)) == pieces
  {
    if |pieces| == 1 {
      ExplodeWithoutSeparator(sep, pieces[0]);
    } else {
      ExplodeImplode(sep, pieces[1..]);
      ExplodeAtSeparator(sep, pieces[0], Implode(sep, pieces[1..]));
      assert [pieces[0]] + pieces[1..] == pieces;
    }
  }

  // ---------------------------------------------------------------------------
  // str_repeat

  /** str_repeat(s, n): n copies of s, one after the other. */
  function Repeat<T>(s: seq<T>, n: nat): seq<T> {
    if n == 0 then [] else s + Repeat(s, n - 1)
  }

  /** Element j of copy k of s sits at position k * |s| + j of the repetition. */
  lemma {:induction false} RepeatAt<T>(s: seq<T>, n: nat, k: nat, j: nat)
    requires k < n && j < |s|
    ensures |Repeat(s, n)| == n * |s|
    ensures k * |s| + j < n * |s|
    ensures Repeat(s, n)[k * |s| + j] == s[j]
  {
    RepeatLength(s, n);
    MulBelow(k, n, |s|, j);
    if k > 0 {
      RepeatAt(s, n - 1, k - 1, j);
      MulPred(k, |s|);
    }
  }

  lemma MulPred(k: nat, m: nat)
    requires k > 0
    ensures (k - 1) * m + m == k * m
  {
  }

  lemma {:induction false} MulBelow(k: nat, n: nat, m: nat, j: nat)
    requires k < n && j < m
    ensures k * m + j < n * m
    decreases n - k
  {
    if k + 1 < n {
      MulBelow(k + 1, n, m, j);
      MulPred(k + 1, m);
    } else {
      MulPred(n, m);
    }
  }

  lemma {:induction false} RepeatLength<T>(s: seq<T>, n: nat)
    ensures |Repeat(s, n)| == n * |s|
  {
    if n > 0 {
      RepeatLength(s, n - 1);
      assert (n - 1) * |s| + |s| == n * |s|;
    }
  }

  // ---------------------------------------------------------------------------
  // Decimal text of integers: PHP's integer-to-string conversion

  predicate IsDigit(c: char) {
    '0' <= c <= '9'
  }

  function DigitChar(d: nat): (c: char)
    requires d < 10
    ensures IsDigit(c)
  {
    ('0' as int + d) as char
  }

  function DigitValue(c: char): (d: nat)
    requires IsDigit(c)
    ensures d < 10
  {
    c as int - '0' as int
  }

  /** The decimal text of n: no sign and no leading zero. */
  function NatToDecimal(n: nat): string {
    if n < 10 then [DigitChar(n)] else NatToDecimal(n / 10) + [DigitChar(n % 10)]
  }

  /** An integer as PHP prints it: a minus sign for negative values, then the digits. */
  function IntToDecimal(i: int): string {
    if i < 0 then "-" + NatToDecimal(-i) else NatToDecimal(i)
  }

  predicate AllDigits(s: string) {
    forall i | 0 <= i < |s| :: IsDigit(s[i])
  }

  /** The value of a string of decimal digits, most significant first. */
  function DecimalValue(s: string): nat
    requires AllDigits(s)
  {
    if s == [] then 0 else DecimalValue(s[..|s| - 1]) * 10 + DigitValue(s[|s| - 1])
  }

  /** At least one digit, and no leading zero unless the text is "0". */
  predicate IsCanonicalDecimal(s: string) {
    |s| >= 1 && AllDigits(s) && (s[0] == '0' ==> |s| == 1)
  }

  /** Printing gives canonical digits whose value is n. */
  lemma {:induction false} NatToDecimalValue(n: nat)
    ensures IsCanonicalDecimal(NatToDecimal(n))
    ensures DecimalValue(NatToDecimal(n)) == n
    ensures n < 1000 ==> |NatToDecimal(n)| <= 3
  {
    if n >= 10 {
      NatToDecimalValue(n / 10);
      var p := NatToDecimal(n / 10);
      var s := p + [DigitChar(n % 10)];
      assert s[..|s| - 1] == p;
      assert s[0] == p[0];
    }
  }

  /** Canonical digits are exactly what printing their value gives. */
  lemma {:induction false} DecimalValueToText(s: string)
    requires IsCanonicalDecimal(s)
    ensures NatToDecimal(DecimalValue(s)) == s
  {
    if |s| > 1 {
      var p := s[..|s| - 1];
      assert IsCanonicalDecimal(p);
      DecimalValueToText(p);
      DecimalValuePositive(p);
      assert DecimalValue(s) / 10 == DecimalValue(p);
      assert DecimalValue(s) % 10 == DigitValue(s[|s| - 1]);
      assert DigitChar(DigitValue(s[|s| - 1])) == s[|s| - 1];
      assert p + [s[|s| - 1]] == s;
    }
  }

  lemma {:induction false} DecimalValuePositive(s: string)
    requires IsCanonicalDecimal(s) && s[0] != '0'
    ensures DecimalValue(s) > 0
  {
    if |s| > 1 {
      var p := s[..|s| - 1];
      assert p[0] == s[0];
      DecimalValuePositive(p);
    }
  }

  // ---------------------------------------------------------------------------
  // hexdec and chr

  predicate IsHexDigit(c: char) {
    '0' <= c <= '9' || 'A' <= c <= 'F' || 'a' <= c <= 'f'
  }

  function HexDigitValue(c: char): (d: nat)
    requires IsHexDigit(c)
    ensures d < 16
  {
    if '0' <= c <= '9' then c as int - '0' as int
    else if 'A' <= c <= 'F' then c as int - 'A' as int + 10
    else c as int - 'a' as int + 10
  }

  /** hexdec(s): the hexadecimal digits of s read most significant first; other characters are ignored. */
  function HexDec(s: string): nat {
    if s == [] then 0
    else if IsHexDigit(s[|s| - 1]) then HexDec(s[..|s| - 1]) * 16 + HexDigitValue(s[|s| - 1])
    else HexDec(s[..|s| - 1])
  }

  /** Two hex digits give the byte their pair denotes. */
  lemma HexDecPair(a: char, b: char)
    requires IsHexDigit(a) && IsHexDigit(b)
    ensures HexDec([a, b]) == 16 * HexDigitValue(a) + HexDigitValue(b) < 256
  {
    assert [a, b][..1] == [a];
    assert [a][..0] == [];
    assert HexDec([a]) == HexDigitValue(a);
  }

  /** chr(n): the byte n modulo 256. */
  function Chr(n: int): byte {
    (n % 256) as byte
  }
}
