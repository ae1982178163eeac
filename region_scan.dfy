/** The left-to-right scan of `regex_pass` that collects non-overlapping match spans. */
module RegionScan {

  import opened Bytes

  /** A half-open byte span `[start, end)` returned by `Match.span()`. */
  datatype Span = Span(start: nat, end: nat)

  /** `pattern.search(text, i)`: the first match starting at or after `i`, if any. */
  type Searcher = (seq<byte>, nat) -> Option<Span>

  /**
   * What the scan relies on from the pattern, at every position it searches from: a match lies
   * inside the text at or after the position, and ends after it (the scan advances to that end).
   */
  ghost predicate SearchContract(search: Searcher, text: seq<byte>) {
    forall i :: 0 <= i < |text| && search(text, i).Some? ==>
      i <= search(text, i).value.start <= search(text, i).value.end <= |text| &&
      i < search(text, i).value.end
  }

  /** Spans inside `[lo, n]`, sorted, and pairwise non-overlapping. */
  ghost predicate Ordered(r: seq<Span>, lo: nat, n: nat) {
    (forall k :: 0 <= k < |r| ==> lo <= r[k].start <= r[k].end <= n) &&
    (forall j, k :: 0 <= j < k < |r| ==> r[j].end <= r[k].start)
  }

  /** The spans the scan collects when it resumes searching at `i`. */
  function Scan(search: Searcher, text: seq<byte>, i: nat): (r: seq<Span>)
    requires SearchContract(search, text) && i <= |text|
    ensures Ordered(r, i, |text|)
    decreases |text| - i
  {
    if i == |text| then []
    else match search(text, i)
      case None => []
      case Some(sp) => [sp] + Scan(search, text, sp.end)
  }

  /** The scan loop of `regex_pass`. */
  method ScanRegions(text: seq<byte>, search: Searcher) returns (regions: seq<Span>)
    requires SearchContract(search, text)
    ensures regions == Scan(search, text, 0)
    ensures Ordered(regions, 0, |text|)
    ensures regions != [] ==> regions[0] == search(text, 0).value
  {
    regions := [];
    var i := 0;
    while i < |text|
      invariant i <= |text|
      invariant regions + Scan(search, text, i) == Scan(search, text, 0)
      decreases |text| - i
    {
      var found := search(text, i);
      if found.None? {
        break;
      }
      regions := regions + [found.value];
      i := found.value.end;
    }
  }

  /** The first position at or after `i` holding a digit, or `|text|` if there is none. */
  function FirstDigit(text: seq<byte>, i: nat): (p: nat)
    requires i <= |text|
    ensures i <= p <= |text|
    ensures p < |text| ==> IsDigit(text[p])
    ensures forall k :: i <= k < p ==> !IsDigit(text[k])
    decreases |text| - i
  {
    if i == |text| || IsDigit(text[i]) then i else FirstDigit(text, i + 1)
  }

  /** The end of the run of digits that starts at `p`. */
  function RunEnd(text: seq<byte>, p: nat): (e: nat)
    requires p <= |text|
    ensures p <= e <= |text|
    ensures forall k :: p <= k < e ==> IsDigit(text[k])
    ensures e < |text| ==> !IsDigit(text[e])
    decreases |text| - p
  {
    if p == |text| || !IsDigit(text[p]) then p else RunEnd(text, p + 1)
  }

  /** `re.search(b"[0-9]+", text, i)`: the leftmost, longest run of digits at or after `i`. */
  function DigitSearch(text: seq<byte>, i: nat): (r: Option<Span>)
    ensures i <= |text| && r.None? ==> forall k :: i <= k < |text| ==> !IsDigit(text[k])
    ensures r.Some? ==> i <= r.value.start < r.value.end <= |text|
    ensures r.Some? ==> forall k :: i <= k < r.value.start ==> !IsDigit(text[k])
    ensures r.Some? ==> forall k :: r.value.start <= k < r.value.end ==> IsDigit(text[k])
    ensures r.Some? ==> r.value.end == |text| || !IsDigit(text[r.value.end])
  {
    if i > |text| then None
    else
      var p := FirstDigit(text, i);
      if p == |text| then None else Some(Span(p, RunEnd(text, p)))
  }

  /** The digit searcher meets the contract the scan relies on. */
  lemma DigitSearchContract(text: seq<byte>)
    ensures SearchContract(DigitSearch, text)
  {
  }
}
