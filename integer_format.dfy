/** `IntegerFormat`: ASCII decimal text viewed as a non-negative integer. */
module IntegerFormat {

  import opened Bytes

  /** A non-empty run of ASCII digits: the only text the format is given. */
  predicate IsDigitString(s: seq<byte>) {
    |s| > 0 && forall k :: 0 <= k < |s| ==> IsDigit(s[k])
  }

  /** The text `str(n)` produces: digits, no sign, no leading zero unless it is `0`. */
  predicate IsCanonical(s: seq<byte>) {
    IsDigitString(s) && (s[0] == 48 ==> |s| == 1)
  }

  function DigitValue(b: byte): (d: nat)
    requires IsDigit(b)
    ensures d < 10
  {
    b as int - 48
  }

  function DigitByte(d: nat): (b: byte)
    requires d < 10
    ensures IsDigit(b) && DigitValue(b) == d
  {
    (48 + d) as byte
  }

  /** The decimal value of a digit string, most significant digit first. */
  function Value(s: seq<byte>): nat
    requires forall k :: 0 <= k < |s| ==> IsDigit(s[k])
  {
    if |s| == 0 then 0 else Value(s[..|s| - 1]) * 10 + DigitValue(s[|s| - 1])
  }

  /**
   * The default of `sys.get_int_max_str_digits()` (Python 3.11 and later): `int()` refuses a
   * decimal string with more digits than this, and `str()` a number that would print longer.
   */
  const MaxStrDigits: nat := 4300

  /**
   * `IntegerFormat.parse`, for the digit strings and the malformed inputs it is given: the
   * `ValueError` of an over-long digit string becomes a parse error too.
   */
  function Parse(input: seq<byte>): (r: Parsed<nat>)
    ensures r.Ok? <==> IsDigitString(input) && |input| <= MaxStrDigits
    ensures r.Ok? ==> r.value == Value(input)
  {
    if IsDigitString(input) && |input| <= MaxStrDigits then Ok(Value(input)) else ParseError
  }

  /** `IntegerFormat.dumps`: `str(n)` in ASCII. */
  function Dumps(n: nat): (r: seq<byte>)
    ensures IsCanonical(r)
    ensures n < 10 <==> |r| == 1
  {
    if n < 10 then [DigitByte(n)] else Dumps(n / 10) + [DigitByte(n % 10)]
  }

  /** Parsing what `dumps` printed gives the number back, for every number `str()` prints. */
  lemma {:induction false} ParseDumps(n: nat)
    requires |Dumps(n)| <= MaxStrDigits
    ensures Parse(Dumps(n)) == Ok(n)
  {
    var s := Dumps(n);
    if n >= 10 {
      assert s[..|s| - 1] == Dumps(n / 10);
      ParseDumps(n / 10);
      assert s[|s| - 1] == DigitByte(n % 10);
    } else {
      assert s[..|s| - 1] == [];
      assert Value(s) == DigitValue(s[0]) == n;
    }
  }

  /** A digit string that does not start with `0` has a positive value. */
  lemma {:induction false} LeadingNonZeroPositive(s: seq<byte>)
    requires IsDigitString(s) && s[0] != 48
    ensures Value(s) >= 1
  {
    if |s| > 1 {
      LeadingNonZeroPositive(s[..|s| - 1]);
    }
  }

  /**
   * A digit string parses exactly when it is within the digit limit, and is then printed back
   * unchanged exactly when it is canonical.
   */
  lemma {:induction false} DumpsParse(x: seq<byte>)
    requires IsDigitString(x)
    ensures Parse(x).Ok? <==> |x| <= MaxStrDigits
    ensures Parse(x).Ok? ==> (Dumps(Parse(x).value) == x <==> IsCanonical(x))
  {
    CanonicalValue(x);
  }

  /** A digit string is the text of its own value exactly when it is canonical. */
  lemma {:induction false} CanonicalValue(x: seq<byte>)
    requires IsDigitString(x)
    ensures Dumps(Value(x)) == x <==> IsCanonical(x)
  {
    var last := x[|x| - 1];
    assert DigitByte(DigitValue(last)) == last;
    if IsCanonical(x) && |x| > 1 {
      var init := x[..|x| - 1];
      assert IsCanonical(init);
      CanonicalValue(init);
      LeadingNonZeroPositive(init);
      var v := Value(x);
      assert v >= 10;
      assert v / 10 == Value(init) && v % 10 == DigitValue(last);
      assert x == init + [last];
    } else if IsCanonical(x) {
      assert x[..0] == [];
      assert Value(x) == DigitValue(last);
      assert x == [last];
    }
  }
}
