/**
 * Python's binary text forms, as the steganography core uses them:
 * `bin(v)` for a non-negative integer, `int(s, 2)` to read such text back,
 * and `int(c)` on a one-character string holding a decimal digit.
 * Python raises ValueError where these return None.
 */
module PyBin {

  datatype Option<T> = None | Some(value: T)

  predicate IsBinaryDigit(c: char) {
    c == '0' || c == '1'
  }

  predicate AllBinary(ds: string) {
    forall i :: 0 <= i < |ds| ==> IsBinaryDigit(ds[i])
  }

  function DigitChar(b: nat): char
    requires b < 2
  {
    if b == 0 then '0' else '1'
  }

  function DigitValue(c: char): nat
    requires IsBinaryDigit(c)
  {
    if c == '0' then 0 else 1
  }

  /** The digits of `bin(v)` after its "0b" prefix: most significant first, no leading zero, "0" for zero. */
  function Digits(v: nat): (ds: string)
    ensures |ds| >= 1 && AllBinary(ds)
    ensures ds[|ds| - 1] == DigitChar(v % 2)
    ensures (ds[0] == '0') == (v == 0)
    ensures |ds| == 1 <==> v < 2
    decreases v
  {
    if v < 2 then [DigitChar(v)] else Digits(v / 2) + [DigitChar(v % 2)]
  }

  /** Python's `bin(v)` for v >= 0. */
  function Bin(v: nat): string {
    "0b" + Digits(v)
  }

  /** The value of a string of binary digits, most significant first. */
  function BinaryValue(ds: string): nat
    requires AllBinary(ds)
  {
    if ds == [] then 0 else 2 * BinaryValue(ds[..|ds| - 1]) + DigitValue(ds[|ds| - 1])
  }

  /** Python's `int(s, 2)`: an optional "0b" or "0B" prefix, then one or more binary digits. */
  function ParseInt2(s: string): Option<nat> {
    if |s| >= 2 && s[0] == '0' && (s[1] == 'b' || s[1] == 'B') then ParseDigits(s[2..]) else ParseDigits(s)
  }

  /** One or more binary digits, or None. */
  function ParseDigits(ds: string): Option<nat> {
    if |ds| >= 1 && AllBinary(ds) then Some(BinaryValue(ds)) else None
  }

  /** Python's `int(c)` for a one-character string `c`: a decimal digit, or ValueError. */
  function DecimalValue(c: char): (r: Option<nat>)
    ensures r.Some? <==> '0' <= c <= '9'
    ensures r.Some? ==> r.value < 10
    ensures c == '0' ==> r == Some(0)
    ensures c == '1' ==> r == Some(1)
  {
    if '0' <= c <= '9' then Some(c as int - '0' as int) else None
  }

  /** Reading the digits of `bin(v)` back gives v. */
  lemma {:induction false} BinaryValueOfDigits(v: nat)
    ensures BinaryValue(Digits(v)) == v
    decreases v
  {
    if v >= 2 {
      var ds := Digits(v);
      assert ds[..|ds| - 1] == Digits(v / 2);
      BinaryValueOfDigits(v / 2);
    }
  }

  /** `int(bin(v), 2) == v`: the text `bin` produces parses back to the number. */
  lemma {:induction false} ParseBin(v: nat)
    ensures ParseInt2(Bin(v)) == Some(v)
  {
    var s := Bin(v);
    assert s[2..] == Digits(v);
    BinaryValueOfDigits(v);
  }

  /**
   * Replacing the last character of `bin(v)` by a binary digit `d` and parsing the
   * result in base 2 gives v with its lowest bit replaced by d's value.
   */
  lemma {:induction false} ParseBinWithLastReplaced(v: nat, d: char)
    ensures var s := Bin(v);
      IsBinaryDigit(d) ==> ParseInt2(s[..|s| - 1] + [d]) == Some(2 * (v / 2) + DigitValue(d))
  {
    if IsBinaryDigit(d) {
      var s := Bin(v);
      var ds := Digits(v);
      var u := ds[..|ds| - 1] + [d];
      assert s[..|s| - 1] + [d] == "0b" + u;
      ParsePrefixed(u);
      ReplacedDigitsValue(v, d);
    }
  }

  /** The digits of `bin(v)` with the last one replaced by a binary digit d are worth 2 * (v / 2) + d. */
  lemma {:induction false} ReplacedDigitsValue(v: nat, d: char)
    requires IsBinaryDigit(d)
    ensures var ds := Digits(v);
      AllBinary(ds[..|ds| - 1] + [d]) && BinaryValue(ds[..|ds| - 1] + [d]) == 2 * (v / 2) + DigitValue(d)
  {
    var ds := Digits(v);
    if v < 2 {
      assert ds[..|ds| - 1] == [];
      AppendDigit([], d);
    } else {
      assert ds[..|ds| - 1] == Digits(v / 2);
      AppendDigit(Digits(v / 2), d);
      BinaryValueOfDigits(v / 2);
    }
  }

  /** With the "0b" prefix `int(s, 2)` reads the binary digits that follow it. */
  lemma ParsePrefixed(ds: string)
    ensures ParseInt2("0b" + ds) == ParseDigits(ds)
  {
    assert ("0b" + ds)[2..] == ds;
  }

  /** Appending a digit doubles the value and adds the digit. */
  lemma AppendDigit(ds: string, d: char)
    requires AllBinary(ds) && IsBinaryDigit(d)
    ensures AllBinary(ds + [d])
    ensures BinaryValue(ds + [d]) == 2 * BinaryValue(ds) + DigitValue(d)
  {
    assert (ds + [d])[..|ds|] == ds;
  }
}
