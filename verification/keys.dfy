/** Storage keys of the proposal map. A proposal id (`u64`) becomes its key
    through Rust's `to_string`: the shortest decimal numeral, `"0"` for zero.
    `ParseDecimal` is the inverse on canonical numerals; the two lemmas at the
    end show the encoding is a bijection between ids and canonical numerals,
    so distinct ids never share a storage slot. */
module Keys {
  import opened Wrappers

  predicate IsDigit(c: char) {
    '0' <= c <= '9'
  }

  predicate AllDigits(s: string) {
    forall i :: 0 <= i < |s| ==> IsDigit(s[i])
  }

  function DigitChar(d: nat): (c: char)
    requires d < 10
    ensures IsDigit(c)
  {
    (('0' as int) + d) as char
  }

  function DigitValue(c: char): (d: nat)
    requires IsDigit(c)
    ensures d < 10
    ensures DigitChar(d) == c
  {
    (c as int) - ('0' as int)
  }

  /** The decimal numeral of `n`, as Rust's `to_string` writes it. */
  function DecimalString(n: nat): (s: string)
    ensures |s| >= 1
    ensures AllDigits(s)
    ensures s[0] == '0' <==> n == 0
    decreases n
  {
    if n < 10 then [DigitChar(n)] else DecimalString(n / 10) + [DigitChar(n % 10)]
  }

  /** The storage key of proposal `id`. */
  function IdKey(id: nat): string {
    DecimalString(id)
  }

  /** Value of a digit string, most significant digit first. */
  function DigitsValue(s: string): nat
    requires AllDigits(s)
  {
    if |s| == 0 then 0 else DigitsValue(s[..|s| - 1]) * 10 + DigitValue(s[|s| - 1])
  }

  /** A canonical numeral: non-empty, digits only, no leading zero unless it is "0". */
  predicate Canonical(s: string) {
    |s| >= 1 && AllDigits(s) && (s[0] != '0' || |s| == 1)
  }

  /** Reads a key back as an id; `None` for anything `to_string` never writes. */
  function ParseDecimal(s: string): (r: Option<nat>)
  {
    if Canonical(s) then Some(DigitsValue(s)) else None
  }

  /** Encoding then parsing gives the id back. */
  lemma {:induction false} ParseDecimalString(n: nat)
    ensures ParseDecimal(DecimalString(n)) == Some(n)
    decreases n
  {
    var s := DecimalString(n);
    if n >= 10 {
      ParseDecimalString(n / 10);
      var p := DecimalString(n / 10);
      assert s[..|s| - 1] == p;
      assert DigitsValue(p) == n / 10;
      assert DigitValue(s[|s| - 1]) == n % 10;
      assert p[0] != '0';
      assert s[0] == p[0];
    } else {
      assert s == [DigitChar(n)];
      assert s[..|s| - 1] == [];
      assert DigitValue(s[0]) == n;
      assert DigitsValue(s) == DigitsValue([]) * 10 + DigitValue(s[0]);
    }
  }

  /** Every canonical numeral is the encoding of the id it parses to. */
  lemma {:induction false} DecimalStringOfParse(s: string, n: nat)
    requires ParseDecimal(s) == Some(n)
    ensures DecimalString(n) == s
    decreases |s|
  {
    if |s| > 1 {
      var p := s[..|s| - 1];
      var d := DigitValue(s[|s| - 1]);
      assert p[0] == s[0];
      assert Canonical(p);
      var m := DigitsValue(p);
      DecimalStringOfParse(p, m);
      assert m != 0;
      assert n == m * 10 + d;
      assert n / 10 == m && n % 10 == d;
      assert s == p + [s[|s| - 1]];
    } else {
      assert |s| == 1;
      assert n == DigitValue(s[0]);
      assert DecimalString(n) == [DigitChar(n)];
    }
  }

  /** Two ids share a storage key exactly when they are the same id. */
  lemma IdKeyInjective(a: nat, b: nat)
    ensures IdKey(a) == IdKey(b) <==> a == b
  {
    ParseDecimalString(a);
    ParseDecimalString(b);
  }
}
