/** The `Substring` format: a view of a string with a fixed prefix and suffix stripped. */
module SubstringFormat {

  import opened Bytes

  datatype Substring<T> = Substring(prefix: seq<T>, suffix: seq<T>)

  predicate StartsWith<T(==)>(s: seq<T>, p: seq<T>) { |p| <= |s| && s[..|p|] == p }

  predicate EndsWith<T(==)>(s: seq<T>, q: seq<T>) { |q| <= |s| && s[|s| - |q|..] == q }

  /** Python's `s[lo:hi]` for bounds inside the string: empty when `hi <= lo`. */
  function Slice<T>(s: seq<T>, lo: nat, hi: nat): (r: seq<T>)
    requires lo <= |s| && hi <= |s|
    ensures |r| == if hi <= lo then 0 else hi - lo
    ensures lo <= hi ==> r == s[lo..hi]
  {
    if hi <= lo then [] else s[lo..hi]
  }

  /**
   * `Substring.parse`: the part of `input` between the prefix and the suffix. When the
   * prefix and the suffix overlap inside `input`, the slice is empty.
   */
  function Parse<T(==)>(f: Substring<T>, input: seq<T>): (r: Parsed<seq<T>>)
    ensures r.Ok? <==> StartsWith(input, f.prefix) && EndsWith(input, f.suffix)
    ensures r.Ok? && |f.prefix| + |f.suffix| <= |input| ==>
              input == f.prefix + r.value + f.suffix
    ensures r.Ok? && |input| < |f.prefix| + |f.suffix| ==> r.value == []
  {
    if StartsWith(input, f.prefix) && EndsWith(input, f.suffix) then
      var r := Slice(input, |f.prefix|, |input| - |f.suffix|);
      assert |f.prefix| + |f.suffix| <= |input| ==>
        input == input[..|f.prefix|] + r + input[|input| - |f.suffix|..];
      Ok(r)
    else
      ParseError
  }

  /** `Substring.dumps`: wrap `input` in the prefix and the suffix. */
  function Dumps<T>(f: Substring<T>, input: seq<T>): (r: seq<T>)
    ensures |r| == |f.prefix| + |input| + |f.suffix|
    ensures r[..|f.prefix|] == f.prefix && r[|r| - |f.suffix|..] == f.suffix
    ensures r[|f.prefix|..|r| - |f.suffix|] == input
  {
    f.prefix + input + f.suffix
  }

  /** Every wrapped value is parsed back to itself. */
  lemma ParseDumps<T>(f: Substring<T>, s: seq<T>)
    ensures Parse(f, Dumps(f, s)) == Ok(s)
  {
    var x := Dumps(f, s);
    assert StartsWith(x, f.prefix) && EndsWith(x, f.suffix);
  }

  /**
   * Re-wrapping what was parsed gives the input back exactly when the prefix and the suffix
   * do not overlap in it.
   */
  lemma DumpsParseIff<T>(f: Substring<T>, x: seq<T>)
    requires Parse(f, x).Ok?
    ensures Dumps(f, Parse(f, x).value) == x <==> |f.prefix| + |f.suffix| <= |x|
  {
    if |x| < |f.prefix| + |f.suffix| {
      assert |Dumps(f, Parse(f, x).value)| == |f.prefix| + |f.suffix|;
    }
  }

  /** A concrete overlap: prefix `ab`, suffix `ba`, input `aba` parses to the empty sequence and re-wraps to `abba`. */
  lemma OverlapCounterexample()
    ensures var f := Substring([97 as byte, 98], [98 as byte, 97]);
            var x := [97 as byte, 98, 97];
            Parse(f, x) == Ok([]) && Dumps(f, []) == [97 as byte, 98, 98, 97] && Dumps(f, []) != x
  {
    var f := Substring([97 as byte, 98], [98 as byte, 97]);
    var x := [97 as byte, 98, 97];
    assert StartsWith(x, f.prefix) && EndsWith(x, f.suffix);
  }

  /**
   * The parse the format's round-trip law asks for: it also fails when prefix and suffix would
   * overlap, so that every successful parse re-wraps to its input.
   */
  function ParseStrict<T(==)>(f: Substring<T>, input: seq<T>): (r: Parsed<seq<T>>)
    ensures r.Ok? <==> StartsWith(input, f.prefix) && EndsWith(input, f.suffix)
                       && |f.prefix| + |f.suffix| <= |input|
  {
    if |f.prefix| + |f.suffix| <= |input| then Parse(f, input) else ParseError
  }

  /** Both round trips of the corrected parse hold for every input. */
  lemma ParseStrictRoundTrip<T>(f: Substring<T>, s: seq<T>, x: seq<T>)
    ensures ParseStrict(f, Dumps(f, s)) == Ok(s)
    ensures ParseStrict(f, x).Ok? ==> Dumps(f, ParseStrict(f, x).value) == x
  {
    ParseDumps(f, s);
    if ParseStrict(f, x).Ok? {
      DumpsParseIff(f, x);
    }
  }
}
