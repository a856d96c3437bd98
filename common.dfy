/**
 * Shared vocabulary of the STK reconciler model: optional values, results
 * carrying the service's error kinds, `firstVal`, decimal numerals and the
 * byte view of strings.
 */
module Common {

  datatype Option<+T> = None | Some(value: T)

  /** The gRPC-style errors the service returns (gomicro's `errs` helpers and
      `status.Errorf`), kept by kind and the field or message they carry. */
  datatype Error =
    | MissingField(field: string)      // errs.MissingField: InvalidArgument
    | IncorrectVal(field: string)      // errs.IncorrectVal: InvalidArgument
    | InvalidArgument(message: string)
    | NotFound(message: string)
    | Internal(message: string)
    | Unauthenticated                  // the auth API rejected the caller

  datatype Result<+T> = Success(value: T) | Failure(error: Error)

  /** `firstVal`: the first non-empty string, or "" when every one is empty. */
  function FirstVal(vals: seq<string>): (r: string)
    ensures r == "" <==> forall i :: 0 <= i < |vals| ==> vals[i] == ""
    ensures r != "" ==> exists i :: 0 <= i < |vals| && vals[i] == r &&
                                    forall j :: 0 <= j < i ==> vals[j] == ""
  {
    if |vals| == 0 then ""
    else if vals[0] != "" then vals[0]
    else
      var r := FirstVal(vals[1..]);
      assert forall i :: 1 <= i < |vals| ==> vals[i] == vals[1..][i - 1];
      r
  }

  // ---------------------------------------------------------------------------
  // ASCII text helpers (Go's strings.ToLower and strings.Contains on ASCII)

  function LowerChar(c: char): char {
    if 'A' <= c <= 'Z' then (c as int + 32) as char else c
  }

  function ToLower(s: string): (r: string)
    ensures |r| == |s|
    ensures forall i :: 0 <= i < |s| ==> r[i] == LowerChar(s[i])
    ensures forall i :: 0 <= i < |r| ==> !('A' <= r[i] <= 'Z')
  {
    if s == [] then [] else [LowerChar(s[0])] + ToLower(s[1..])
  }

  /** The content types the service reads as JSON in replies from M-Pesa,
      compared after `strings.ToLower`. */
  predicate IsJsonContentType(ct: string) {
    ToLower(ct) == "application/json" || ToLower(ct) == "application/json;charset=utf-8"
  }

  predicate IsPrefix(p: string, s: string) {
    |p| <= |s| && s[..|p|] == p
  }

  /** `strings.Contains(s, sub)`. */
  predicate Contains(s: string, sub: string)
    decreases |s|
  {
    IsPrefix(sub, s) || (|s| > 0 && Contains(s[1..], sub))
  }

  // ---------------------------------------------------------------------------
  // Decimal numerals: `fmt.Sprint` of an integer, and the numeric value a
  // MySQL comparison gives a string (its leading digits)

  predicate IsDigit(c: char) {
    '0' <= c <= '9'
  }

  function DigitChar(d: nat): (c: char)
    requires d < 10
    ensures IsDigit(c)
  {
    ('0' as int + d) as char
  }

  function NatToString(n: nat): (r: string)
    ensures |r| > 0
    ensures forall i :: 0 <= i < |r| ==> IsDigit(r[i])
    decreases n
  {
    if n < 10 then [DigitChar(n)] else NatToString(n / 10) + [DigitChar(n % 10)]
  }

  function IntToString(i: int): string {
    if i < 0 then "-" + NatToString(-i) else NatToString(i)
  }

  function DigitsValue(s: string): nat
    requires forall i :: 0 <= i < |s| ==> IsDigit(s[i])
  {
    if s == [] then 0
    else
      assert IsDigit(s[|s| - 1]);
      DigitsValue(s[..|s| - 1]) * 10 + (s[|s| - 1] as int - '0' as int)
  }

  /** The longest prefix of `s` made of decimal digits. */
  function LeadingDigits(s: string): (r: string)
    ensures IsPrefix(r, s)
    ensures forall i :: 0 <= i < |r| ==> IsDigit(r[i])
    ensures |r| < |s| ==> !IsDigit(s[|r|])
  {
    if s == [] || !IsDigit(s[0]) then [] else [s[0]] + LeadingDigits(s[1..])
  }

  /** The value of the leading decimal digits of `s`, 0 when it has none.
      For a numeral this is the number MySQL reads from it when comparing it
      with an integer column; MySQL reads other text as a double (signs,
      fractions, exponents and leading blanks included), which this does
      not model. */
  function LeadingNumber(s: string): nat {
    DigitsValue(LeadingDigits(s))
  }

  lemma {:induction false} DigitsOnlyLeading(s: string)
    requires forall i :: 0 <= i < |s| ==> IsDigit(s[i])
    ensures LeadingDigits(s) == s
  {
    if s != [] {
      DigitsOnlyLeading(s[1..]);
    }
  }

  lemma {:induction false} DigitsValueOfNatToString(n: nat)
    ensures DigitsValue(NatToString(n)) == n
    decreases n
  {
    if n >= 10 {
      var s := NatToString(n / 10) + [DigitChar(n % 10)];
      assert s[..|s| - 1] == NatToString(n / 10);
      DigitsValueOfNatToString(n / 10);
    }
  }

  /** A decimal numeral printed by `fmt.Sprint` reads back as the same number. */
  lemma NatToStringRoundTrip(n: nat)
    ensures LeadingNumber(NatToString(n)) == n
  {
    DigitsOnlyLeading(NatToString(n));
    DigitsValueOfNatToString(n);
  }

  // ---------------------------------------------------------------------------
  // The byte view of strings: one character per byte, which is Go's UTF-8
  // encoding exactly when the text is ASCII (numerals, credentials, keys)

  newtype byte = b: int | 0 <= b < 256

  function StringToBytes(s: string): (bs: seq<byte>)
    ensures |bs| == |s|
  {
    seq(|s|, i requires 0 <= i < |s| => ((s[i] as int) % 256) as byte)
  }

  function BytesToString(bs: seq<byte>): (s: string)
    ensures |s| == |bs|
  {
    seq(|bs|, i requires 0 <= i < |bs| => (bs[i] as int) as char)
  }

  /** `[]byte(s)` followed by `string(bs)` gives back ASCII text, whose
      characters UTF-8 encodes as one byte each. */
  lemma StringBytesRoundTrip(s: string)
    requires forall i :: 0 <= i < |s| ==> s[i] as int < 128
    ensures BytesToString(StringToBytes(s)) == s
  {
  }

  /** Go's `string(bs)` followed by `[]byte(s)` gives back the same bytes. */
  lemma BytesStringRoundTrip(bs: seq<byte>)
    ensures StringToBytes(BytesToString(bs)) == bs
  {
  }

  /** Extending a prefix of `page` by its next element. */
  lemma PrefixStep<T>(before: seq<T>, page: seq<T>, j: nat)
    requires j < |page|
    ensures before + page[..j] + [page[j]] == before + page[..j + 1]
  {
    assert page[..j + 1] == page[..j] + [page[j]];
  }
}
