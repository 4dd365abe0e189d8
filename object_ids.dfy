/**
 * The ids the document store generates for records saved without one.
 * Generated ids are the decimal digits of a serial number, padded with
 * leading zeros to 24 characters (the length of the store's own ids), so
 * they are never equal to a short literal id such as "2" or "3".
 */
module ObjectIds {

  const ID_LENGTH: nat := 24

  predicate IsDigit(c: char)
  {
    '0' <= c <= '9'
  }

  predicate AllDigits(s: string)
  {
    forall i :: 0 <= i < |s| ==> IsDigit(s[i])
  }

  function DigitChar(d: nat): (c: char)
    requires d < 10
    ensures IsDigit(c) && (c as int) - ('0' as int) == d
  {
    (('0' as int) + d) as char
  }

  /** The decimal digits of `n`, without leading zeros. */
  function Decimal(n: nat): (s: string)
    ensures 1 <= |s| && AllDigits(s)
  {
    if n < 10 then [DigitChar(n)] else Decimal(n / 10) + [DigitChar(n % 10)]
  }

  function Zeros(k: nat): (s: string)
    ensures |s| == k && AllDigits(s)
    ensures forall i :: 0 <= i < k ==> s[i] == '0'
  {
    if k == 0 then [] else Zeros(k - 1) + ['0']
  }

  /** The value of a string of decimal digits, leading zeros allowed. */
  function DigitsValue(s: string): nat
    requires AllDigits(s)
  {
    if s == [] then 0
    else 10 * DigitsValue(s[..|s| - 1]) + ((s[|s| - 1] as int) - ('0' as int))
  }

  function Pow10(k: nat): (p: nat)
    ensures p >= 1
  {
    if k == 0 then 1 else 10 * Pow10(k - 1)
  }

  /** The generated id of serial `n`. */
  function ObjectId(n: nat): (s: string)
    ensures |s| >= ID_LENGTH && AllDigits(s)
  {
    var d := Decimal(n);
    if |d| < ID_LENGTH then Zeros(ID_LENGTH - |d|) + d else d
  }

  lemma {:induction false} DecimalRoundTrip(n: nat)
    ensures DigitsValue(Decimal(n)) == n
  {
    if n >= 10 {
      var d := Decimal(n);
      assert d[..|d| - 1] == Decimal(n / 10);
      DecimalRoundTrip(n / 10);
    }
  }

  lemma {:induction false} DecimalLength(n: nat, k: nat)
    requires 1 <= k && n < Pow10(k)
    ensures |Decimal(n)| <= k
  {
    if n >= 10 {
      DecimalLength(n / 10, k - 1);
    }
  }

  lemma {:induction false} LeadingZerosValue(k: nat, s: string)
    requires AllDigits(s)
    ensures DigitsValue(Zeros(k) + s) == DigitsValue(s)
  {
    if s == [] {
      assert Zeros(k) + s == Zeros(k);
      ZerosValue(k);
    } else {
      var t := Zeros(k) + s;
      assert t[..|t| - 1] == Zeros(k) + s[..|s| - 1];
      LeadingZerosValue(k, s[..|s| - 1]);
    }
  }

  lemma {:induction false} ZerosValue(k: nat)
    ensures DigitsValue(Zeros(k)) == 0
  {
    if k > 0 {
      assert Zeros(k)[..k - 1] == Zeros(k - 1);
      ZerosValue(k - 1);
    }
  }

  /** Reading a generated id back gives its serial: generated ids are all distinct. */
  lemma ObjectIdRoundTrip(n: nat)
    ensures DigitsValue(ObjectId(n)) == n
  {
    DecimalRoundTrip(n);
    var d := Decimal(n);
    if |d| < ID_LENGTH {
      LeadingZerosValue(ID_LENGTH - |d|, d);
    }
  }

  lemma ObjectIdInjective(m: nat, n: nat)
    requires ObjectId(m) == ObjectId(n)
    ensures m == n
  {
    ObjectIdRoundTrip(m);
    ObjectIdRoundTrip(n);
  }

  /** Serials below 10^24 give ids of exactly 24 characters. */
  lemma ObjectIdLength(n: nat)
    requires n < Pow10(ID_LENGTH)
    ensures |ObjectId(n)| == ID_LENGTH
  {
    DecimalLength(n, ID_LENGTH);
  }

  /**
   * The first serial from `from` upwards whose id is not in `keys`; `tried`
   * holds the ids already found taken, all of serials below `from`.
   */
  function FreshSerial(keys: set<string>, from: nat, ghost tried: set<string>): (n: nat)
    requires forall k :: k in tried ==> AllDigits(k) && DigitsValue(k) < from
    ensures from <= n && ObjectId(n) !in keys
    ensures forall m :: from <= m < n ==> ObjectId(m) in keys
    decreases keys - tried
  {
    if ObjectId(from) !in keys then from
    else
      ObjectIdRoundTrip(from);
      FreshSerial(keys, from + 1, tried + {ObjectId(from)})
  }
}
