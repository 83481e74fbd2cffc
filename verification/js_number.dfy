/** The pieces of JavaScript's Number and String behaviour the model relies on,
    stated on unbounded integers and exact reals instead of IEEE-754 doubles. */
module JsNumber {

  /** `Math.round`: the nearest integer, half-way cases going toward +infinity. */
  function Round(x: real): (n: int)
    ensures n as real - 0.5 <= x < n as real + 0.5
  {
    (x + 0.5).Floor
  }

  /** The numeric value of a digit character, letters in either case
      (the digit alphabet of `parseInt` and `Number.prototype.toString`). */
  function CharValue(c: char): (v: int)
    ensures -1 <= v < 36
  {
    if '0' <= c <= '9' then c as int - '0' as int
    else if 'a' <= c <= 'z' then c as int - 'a' as int + 10
    else if 'A' <= c <= 'Z' then c as int - 'A' as int + 10
    else -1
  }

  /** `c` is a digit of the given radix, in either case. */
  predicate IsDigit(c: char, radix: nat)
  {
    0 <= CharValue(c) < radix
  }

  /** `c` is a digit of the given radix as `toString` writes it: letters lower-case. */
  predicate IsLowerDigit(c: char, radix: nat)
  {
    ('0' <= c <= '9' || 'a' <= c <= 'z') && CharValue(c) < radix
  }

  /** The lower-case digit character for a digit value. */
  function DigitChar(v: nat): (c: char)
    requires v < 36
    ensures CharValue(c) == v
    ensures '0' <= c <= '9' || 'a' <= c <= 'z'
  {
    if v < 10 then ('0' as int + v) as char else ('a' as int + v - 10) as char
  }

  /** The digits of a natural number in the given radix, most significant first,
      without leading zeros: `n.toString(radix)` for `n >= 0`. */
  function Digits(n: nat, radix: nat): (s: string)
    requires 2 <= radix <= 36
    ensures 1 <= |s|
    ensures forall i :: 0 <= i < |s| ==> IsLowerDigit(s[i], radix)
    ensures s[0] == '0' <==> n == 0
    decreases n
  {
    if n < radix then [DigitChar(n)]
    else
      DivMod(n, radix);
      Digits(n / radix, radix) + [DigitChar(n % radix)]
  }

  /** Euclidean division by a radix of at least 2 shrinks a positive number. */
  lemma DivMod(n: nat, radix: nat)
    requires 2 <= radix <= n
    ensures 1 <= n / radix < n
    ensures 0 <= n % radix < radix
    ensures (n / radix) * radix + n % radix == n
  {
  }

  /** `Number.prototype.toString(radix)` on an integer value. */
  function ToRadixString(n: int, radix: nat): (s: string)
    requires 2 <= radix <= 36
    ensures n >= 0 ==> forall i :: 0 <= i < |s| ==> IsLowerDigit(s[i], radix)
    ensures n < 0 ==> 2 <= |s| && s[0] == '-'
  {
    if n < 0 then "-" + Digits(-n, radix) else Digits(n, radix)
  }

  /** The string `toString(radix)` writes spells its number: the digits read back
      as `n`, after a `-` when `n` is negative. */
  lemma ToRadixStringValue(n: int, radix: nat)
    requires 2 <= radix <= 36
    ensures var s := ToRadixString(n, radix);
      && (n >= 0 ==> (forall i :: 0 <= i < |s| ==> IsDigit(s[i], radix)) && DigitsValue(s, radix) == n)
      && (n < 0 ==> (forall i :: 1 <= i < |s| ==> IsDigit(s[i], radix)) && DigitsValue(s[1..], radix) == -n)
  {
    DigitsValueOfDigits(if n < 0 then -n else n, radix);
    if n < 0 {
      assert ToRadixString(n, radix)[1..] == Digits(-n, radix);
    }
  }

  /** `String.prototype.padStart(len, fill)` with a one-character filler. */
  function PadStart(s: string, len: nat, fill: char): (r: string)
    ensures |r| == if |s| >= len then |s| else len
    ensures r[|r| - |s|..] == s
    ensures forall i :: 0 <= i < |r| - |s| ==> r[i] == fill
  {
    if |s| >= len then s else seq(len - |s|, _ => fill) + s
  }

  /** The value of a string of digits in the given radix, most significant first:
      what `parseInt(s, radix)` returns when every character of `s` is a digit. */
  function DigitsValue(s: string, radix: nat): (v: nat)
    requires forall i :: 0 <= i < |s| ==> IsDigit(s[i], radix)
  {
    if s == [] then 0
    else
      var init, last := s[..|s| - 1], s[|s| - 1];
      assert IsDigit(last, radix);
      assert forall i :: 0 <= i < |init| ==> init[i] == s[i];
      var v := DigitsValue(init, radix);
      MulNat(v, radix);
      v * radix + CharValue(last)
  }

  lemma MulNat(a: nat, b: nat)
    ensures a * b >= 0
  {
  }

  /** Reading back the digits `toString` writes gives the number written. */
  lemma {:induction false} DigitsValueOfDigits(n: nat, radix: nat)
    requires 2 <= radix <= 36
    ensures forall i :: 0 <= i < |Digits(n, radix)| ==> IsDigit(Digits(n, radix)[i], radix)
    ensures DigitsValue(Digits(n, radix), radix) == n
    decreases n
  {
    var s := Digits(n, radix);
    if n >= radix {
      DivMod(n, radix);
      var m, d := n / radix, n % radix;
      DigitsValueOfDigits(m, radix);
      assert s == Digits(m, radix) + [DigitChar(d)];
      assert s[..|s| - 1] == Digits(m, radix);
      assert DigitsValue(s, radix) == DigitsValue(Digits(m, radix), radix) * radix + d;
    }
  }
}
