/** Decimal numerals: printing into a fixed buffer and reading back. */
module Decimal {
  import opened Words

  const BUFFER: nat := 20

  predicate IsDigit(c: char) {
    '0' <= c <= '9'
  }

  function Digit(d: nat): (c: char)
    requires d < 10
    ensures IsDigit(c) && DigitValue(c) == d
  {
    ('0' as int + d) as char
  }

  function DigitValue(c: char): nat
    requires IsDigit(c)
  {
    c as int - '0' as int
  }

  /** The numeral of n, without leading zeros. */
  function Numeral(n: nat): (s: string)
    ensures |s| > 0 && forall i :: 0 <= i < |s| ==> IsDigit(s[i])
  {
    if n < 10 then [Digit(n)] else Numeral(n / 10) + [Digit(n % 10)]
  }

  // ---------- itoa ----------

  function Power10(k: nat): nat {
    if k == 0 then 1 else 10 * Power10(k - 1)
  }

  lemma Power20()
    ensures Power10(20) > TWO_64
  {
    assert Power10(4) == 10000;
    assert Power10(8) == 100000000;
    assert Power10(12) == 1000000000000;
    assert Power10(16) == 10000000000000000;
    assert Power10(20) == 100000000000000000000;
  }

  /** The digits of v that are still to be written. */
  function Pending(v: nat): string {
    if v == 0 then [] else Numeral(v)
  }

  lemma LastDigit(v: nat, tail: string)
    requires v > 0
    ensures Pending(v) + tail == Pending(v / 10) + ([Digit(v % 10)] + tail)
  {
    if v < 10 {
      assert [] + ([Digit(v)] + tail) == [Digit(v)] + tail;
    } else {
      assert Numeral(v / 10) + ([Digit(v % 10)] + tail) == (Numeral(v / 10) + [Digit(v % 10)]) + tail;
    }
  }

  /** Fills a 20-byte buffer from the back. Every store is in bounds, whatever the 64-bit value. */
  method Itoa(value: nat) returns (s: string)
    requires value < TWO_64
    ensures s == Numeral(value)
  {
    if value == 0 {
      s := "0";
      assert s == [Digit(0)] == Numeral(value);
      return;
    }
    var buf := new char[BUFFER];
    var i := BUFFER;
    var v: nat := value;
    Power20();
    assert buf[i..] == [];
    while v > 0
      invariant 0 <= i <= BUFFER
      invariant v < Power10(i)
      invariant Pending(v) + buf[i..] == Numeral(value)
      decreases v
    {
      ghost var tail := buf[i..];
      i := i - 1;
      buf[i] := ('0' as int + v % 10) as char;
      assert buf[i..] == [Digit(v % 10)] + tail;
      LastDigit(v, tail);
      v := v / 10;
    }
    s := buf[i..];
  }

  // ---------- strconv.ParseUint(s, 10, 64) ----------

  /** The value with no error, 0 with a syntax error, or the maximum with a range error. */
  datatype Parsed = Ok(value: nat) | Syntax | Range {
    function Value(): nat {
      match this
      case Ok(v) => v
      case Syntax => 0
      case Range => TWO_64 - 1
    }
  }

  function Step(p: Parsed, c: char): Parsed {
    if !p.Ok? then p
    else if !IsDigit(c) then Syntax
    else if p.value * 10 + DigitValue(c) >= TWO_64 then Range
    else Ok(p.value * 10 + DigitValue(c))
  }

  /** Reads the characters left to right; the first error decides. */
  function Fold(s: string): Parsed {
    if s == [] then Ok(0) else Step(Fold(s[..|s| - 1]), s[|s| - 1])
  }

  function ParseUint(s: string): Parsed {
    if s == [] then Syntax else Fold(s)
  }

  /** The loop of ParseUint, which detects overflow before it can wrap a 64-bit accumulator. */
  method ParseUintLoop(s: string) returns (n: nat, ok: bool)
    ensures n == ParseUint(s).Value() && ok == ParseUint(s).Ok?
  {
    if s == [] {
      return 0, false;
    }
    n := 0;
    for i := 0 to |s|
      invariant n < TWO_64 && Fold(s[..i]) == Ok(n)
    {
      assert s[..i + 1][..i] == s[..i];
      FoldPrefix(s, i + 1);
      if !IsDigit(s[i]) {
        return 0, false;
      }
      if n >= (TWO_64 - 1) / 10 + 1 {
        return TWO_64 - 1, false;
      }
      var n1 := (n * 10 + DigitValue(s[i])) % TWO_64;
      if n1 < n * 10 {
        return TWO_64 - 1, false;
      }
      n := n1;
    }
    assert s[..|s|] == s;
    ok := true;
  }

  /** An error in a prefix is an error of the whole. */
  lemma {:induction false} FoldPrefix(s: string, i: nat)
    requires i <= |s|
    ensures !Fold(s[..i]).Ok? ==> Fold(s) == Fold(s[..i])
    decreases |s|
  {
    if i < |s| {
      FoldPrefix(s[..|s| - 1], i);
      assert s[..|s| - 1][..i] == s[..i];
    } else {
      assert s[..i] == s;
    }
  }

  lemma {:induction false} FoldNumeral(n: nat)
    requires n < TWO_64
    ensures Fold(Numeral(n)) == Ok(n)
  {
    if n < 10 {
      assert Numeral(n)[..0] == [];
    } else {
      FoldNumeral(n / 10);
      assert Numeral(n)[..|Numeral(n)| - 1] == Numeral(n / 10);
    }
  }

  /** Printing a 64-bit value and parsing it gives the value back. */
  lemma PrintParse(n: nat)
    requires n < TWO_64
    ensures ParseUint(Numeral(n)) == Ok(n)
  {
    FoldNumeral(n);
  }

  /** The numeral of a greater value is a range error, which leaves the greatest 64-bit value. */
  lemma {:induction false} TooBig(n: nat)
    requires n >= TWO_64
    ensures ParseUint(Numeral(n)) == Range && ParseUint(Numeral(n)).Value() == 18446744073709551615
  {
    assert Numeral(n)[..|Numeral(n)| - 1] == Numeral(n / 10);
    if n / 10 >= TWO_64 {
      TooBig(n / 10);
    } else {
      FoldNumeral(n / 10);
    }
  }

  /** A first character that is no digit, after a number that is in range or at the start, is a syntax error, which leaves 0. */
  lemma {:induction false} OnlyDigitsParse(s: string, i: nat)
    requires i < |s| && !IsDigit(s[i]) && (i > 0 ==> ParseUint(s[..i]).Ok?)
    ensures ParseUint(s) == Syntax && ParseUint(s).Value() == 0
    decreases |s|
  {
    var init := s[..|s| - 1];
    if i < |init| {
      assert init[..i] == s[..i];
      OnlyDigitsParse(init, i);
    } else {
      assert init == s[..i] && Fold(init).Ok?;
      assert Fold(s) == Step(Fold(init), s[i]);
    }
  }

  /** Different numbers have different numerals, of any size. */
  lemma {:induction false} NumeralInjective(m: nat, n: nat)
    requires Numeral(m) == Numeral(n)
    ensures m == n
  {
    var last := |Numeral(m)| - 1;
    assert DigitValue(Numeral(m)[last]) == m % 10 && DigitValue(Numeral(n)[last]) == n % 10;
    if m >= 10 && n >= 10 {
      assert Numeral(m)[..last] == Numeral(m / 10) && Numeral(n)[..last] == Numeral(n / 10);
      NumeralInjective(m / 10, n / 10);
    }
  }
}
