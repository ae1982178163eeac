/**
 * `reduce_integer_literals`: `regex_pass(b"[0-9]+")` around `reduce_integer`, seen through
 * `IntegerFormat`.
 */
module IntegerLiterals {

  import opened Bytes
  import RegionScan
  import IntegerFormat

  /** The regions of `text` that the pass works on. */
  function Regions(text: seq<byte>): (r: seq<RegionScan.Span>)
    ensures RegionScan.Ordered(r, 0, |text|)
  {
    RegionScan.DigitSearchContract(text);
    RegionScan.Scan(RegionScan.DigitSearch, text, 0)
  }

  /** `sp` covers a whole run of digits of `text`: nothing that is a digit borders it. */
  predicate MaximalRun(text: seq<byte>, sp: RegionScan.Span) {
    sp.start < sp.end <= |text| && IntegerFormat.IsDigitString(text[sp.start..sp.end]) &&
    (sp.end == |text| || !IsDigit(text[sp.end])) &&
    (sp.start == 0 || !IsDigit(text[sp.start - 1]))
  }

  /** The first match from a position that does not split a run is a whole run. */
  lemma FirstRegion(text: seq<byte>, i: nat)
    requires i <= |text| && (i == 0 || i == |text| || !IsDigit(text[i]))
    requires RegionScan.DigitSearch(text, i).Some?
    ensures MaximalRun(text, RegionScan.DigitSearch(text, i).value)
  {
    var sp := RegionScan.DigitSearch(text, i).value;
    assert forall j :: 0 <= j < sp.end - sp.start ==> text[sp.start..sp.end][j] == text[sp.start + j];
  }

  /** Every region the scan finds from a position that does not split a run is a whole run. */
  lemma {:induction false} DigitRegionsFrom(text: seq<byte>, i: nat)
    requires i <= |text| && (i == 0 || i == |text| || !IsDigit(text[i]))
    ensures RegionScan.SearchContract(RegionScan.DigitSearch, text)
    ensures forall k :: 0 <= k < |RegionScan.Scan(RegionScan.DigitSearch, text, i)| ==>
              MaximalRun(text, RegionScan.Scan(RegionScan.DigitSearch, text, i)[k])
    decreases |text| - i
  {
    RegionScan.DigitSearchContract(text);
    var r := RegionScan.Scan(RegionScan.DigitSearch, text, i);
    if i < |text| && RegionScan.DigitSearch(text, i).Some? {
      var sp := RegionScan.DigitSearch(text, i).value;
      FirstRegion(text, i);
      DigitRegionsFrom(text, sp.end);
      var rest := RegionScan.Scan(RegionScan.DigitSearch, text, sp.end);
      assert r == [sp] + rest;
      assert forall k :: 0 < k < |r| ==> r[k] == rest[k - 1];
    }
  }

  /**
   * Every region is a maximal run of ASCII digits, so the integer view of it fails only on a
   * run longer than `int()` accepts.
   */
  lemma RegionsParse(text: seq<byte>)
    ensures forall k :: 0 <= k < |Regions(text)| ==>
              MaximalRun(text, Regions(text)[k]) &&
              (IntegerFormat.Parse(text[Regions(text)[k].start..Regions(text)[k].end]).Ok? <==>
               Regions(text)[k].end - Regions(text)[k].start <= IntegerFormat.MaxStrDigits)
  {
    DigitRegionsFrom(text, 0);
  }

  /** A smaller number never prints longer. */
  lemma {:induction false} DumpsLengthMonotone(n: nat, m: nat)
    requires n <= m
    ensures |IntegerFormat.Dumps(n)| <= |IntegerFormat.Dumps(m)|
    decreases m
  {
    if n >= 10 {
      DumpsLengthMonotone(n / 10, m / 10);
    }
  }

  /** Printing the value of a digit string takes at most as many digits. */
  lemma {:induction false} DumpsValueLength(s: seq<byte>)
    requires IntegerFormat.IsDigitString(s)
    ensures |IntegerFormat.Dumps(IntegerFormat.Value(s))| <= |s|
  {
    var v := IntegerFormat.Value(s);
    if v >= 10 {
      var p := s[..|s| - 1];
      assert v == IntegerFormat.Value(p) * 10 + IntegerFormat.DigitValue(s[|s| - 1]);
      assert v / 10 == IntegerFormat.Value(p);
      assert |p| > 0;
      DumpsValueLength(p);
    }
  }

  /**
   * Whatever integer `reduce_integer` settles on for a region (one at most the region's value),
   * printing it gives a literal no longer than the region's text, so within what `str()`
   * prints, and that literal parses back to it.
   */
  lemma ReducedLiteral(text: seq<byte>, k: nat, n: nat)
    requires k < |Regions(text)|
    requires IntegerFormat.Parse(text[Regions(text)[k].start..Regions(text)[k].end]).Ok?
    requires n <= IntegerFormat.Parse(text[Regions(text)[k].start..Regions(text)[k].end]).value
    ensures |IntegerFormat.Dumps(n)| <= Regions(text)[k].end - Regions(text)[k].start
    ensures |IntegerFormat.Dumps(n)| <= IntegerFormat.MaxStrDigits
    ensures IntegerFormat.Parse(IntegerFormat.Dumps(n)) == Ok(n)
  {
    var s := text[Regions(text)[k].start..Regions(text)[k].end];
    DumpsLengthMonotone(n, IntegerFormat.Value(s));
    DumpsValueLength(s);
    IntegerFormat.ParseDumps(n);
  }
}
