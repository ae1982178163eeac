/**
 * The region engine of `regex_pass`: one replacement slot per matched span, the reconstruction
 * `replace(i, s)`, and the optimistic commit of a proposal for one region while the other
 * regions' tasks keep writing their own slots.
 */
module RegionEngine {

  import opened Bytes
  import opened RegionScan

  /** The test case at the start of the pass and the spans found in it. */
  datatype Snapshot = Snapshot(initial: seq<byte>, regions: seq<Span>)

  ghost predicate WellFormed(snap: Snapshot) {
    Ordered(snap.regions, 0, |snap.initial|)
  }

  /** The matched text of every region: the initial contents of the slots. */
  function Originals(snap: Snapshot): (vals: seq<seq<byte>>)
    requires WellFormed(snap)
    ensures |vals| == |snap.regions|
    ensures forall k :: 0 <= k < |vals| ==>
              vals[k] == snap.initial[snap.regions[k].start..snap.regions[k].end]
  {
    seq(|snap.regions|, k requires 0 <= k < |snap.regions| =>
      snap.initial[snap.regions[k].start..snap.regions[k].end])
  }

  /**
   * The text from offset `prev` on, with the regions from `j` on filled by `vals`: the loop of
   * `replace` from its `j`-th iteration.
   */
  function SpliceFrom(snap: Snapshot, vals: seq<seq<byte>>, j: nat, prev: nat): seq<byte>
    requires WellFormed(snap) && |vals| == |snap.regions| && j <= |vals| && prev <= |snap.initial|
    requires j < |vals| ==> prev <= snap.regions[j].start
    decreases |vals| - j
  {
    if j == |vals| then snap.initial[prev..]
    else
      var sp := snap.regions[j];
      snap.initial[prev..sp.start] + vals[j] + SpliceFrom(snap, vals, j + 1, sp.end)
  }

  /** The gaps between the regions, from the snapshot, interleaved with `vals`. */
  function Splice(snap: Snapshot, vals: seq<seq<byte>>): seq<byte>
    requires WellFormed(snap) && |vals| == |snap.regions|
  {
    SpliceFrom(snap, vals, 0, 0)
  }

  /** `replace(i, s)`: the current slots, with `s` standing in for slot `i`. */
  function Replace(snap: Snapshot, slots: seq<seq<byte>>, i: nat, s: seq<byte>): seq<byte>
    requires WellFormed(snap) && |slots| == |snap.regions| && i < |slots|
  {
    Splice(snap, slots[i := s])
  }

  /** Total width of the regions from `j` on. */
  function Widths(regions: seq<Span>, j: nat): int
    requires j <= |regions|
    decreases |regions| - j
  {
    if j == |regions| then 0 else regions[j].end - regions[j].start + Widths(regions, j + 1)
  }

  /** Total length of the slot values from `j` on. */
  function Lengths(vals: seq<seq<byte>>, j: nat): int
    requires j <= |vals|
    decreases |vals| - j
  {
    if j == |vals| then 0 else |vals[j]| + Lengths(vals, j + 1)
  }

  lemma {:induction false} SpliceFromOriginals(snap: Snapshot, vals: seq<seq<byte>>, j: nat, prev: nat)
    requires WellFormed(snap) && vals == Originals(snap) && j <= |vals| && prev <= |snap.initial|
    requires j < |vals| ==> prev <= snap.regions[j].start
    ensures SpliceFrom(snap, vals, j, prev) == snap.initial[prev..]
    decreases |vals| - j
  {
    if j < |vals| {
      var sp := snap.regions[j];
      SpliceFromOriginals(snap, vals, j + 1, sp.end);
      assert snap.initial[prev..] ==
        snap.initial[prev..sp.start] + snap.initial[sp.start..sp.end] + snap.initial[sp.end..];
    }
  }

  /** While every slot holds its matched text, reconstruction gives back the snapshot. */
  lemma SpliceOriginals(snap: Snapshot)
    requires WellFormed(snap)
    ensures Splice(snap, Originals(snap)) == snap.initial
  {
    SpliceFromOriginals(snap, Originals(snap), 0, 0);
  }

  /** Replacing a region by its own matched text, while all slots are original, is the identity. */
  lemma ReplaceOriginal(snap: Snapshot, i: nat)
    requires WellFormed(snap) && i < |snap.regions|
    ensures Replace(snap, Originals(snap), i,
                    snap.initial[snap.regions[i].start..snap.regions[i].end]) == snap.initial
  {
    var vals := Originals(snap);
    assert vals[i := snap.initial[snap.regions[i].start..snap.regions[i].end]] == vals;
    SpliceOriginals(snap);
  }

  lemma {:induction false} SpliceFromLength(snap: Snapshot, vals: seq<seq<byte>>, j: nat, prev: nat)
    requires WellFormed(snap) && |vals| == |snap.regions| && j <= |vals| && prev <= |snap.initial|
    requires j < |vals| ==> prev <= snap.regions[j].start
    ensures |SpliceFrom(snap, vals, j, prev)| ==
            |snap.initial| - prev - Widths(snap.regions, j) + Lengths(vals, j)
    decreases |vals| - j
  {
    if j < |vals| {
      SpliceFromLength(snap, vals, j + 1, snap.regions[j].end);
    }
  }

  lemma {:induction false} LengthsUpdate(vals: seq<seq<byte>>, j: nat, i: nat, s: seq<byte>)
    requires j <= |vals| && i < |vals|
    ensures Lengths(vals[i := s], j) ==
            Lengths(vals, j) + (if j <= i then |s| - |vals[i]| else 0)
    decreases |vals| - j
  {
    if j < |vals| {
      LengthsUpdate(vals, j + 1, i, s);
    }
  }

  /**
   * The length of `replace(i, s)`: the snapshot's length, less the matched widths, plus the
   * other slots' lengths and `|s|`.
   */
  lemma ReplaceLength(snap: Snapshot, slots: seq<seq<byte>>, i: nat, s: seq<byte>)
    requires WellFormed(snap) && |slots| == |snap.regions| && i < |slots|
    ensures |Replace(snap, slots, i, s)| ==
            |snap.initial| - Widths(snap.regions, 0) + (Lengths(slots, 0) - |slots[i]|) + |s|
  {
    SpliceFromLength(snap, slots[i := s], 0, 0);
    LengthsUpdate(slots, 0, i, s);
  }

  /** Every slot's own value reconstructs the same candidate: the one all slots describe. */
  lemma ReplaceOwnSlot(snap: Snapshot, slots: seq<seq<byte>>, i: nat, j: nat)
    requires WellFormed(snap) && |slots| == |snap.regions| && i < |slots| && j < |slots|
    ensures Replace(snap, slots, i, slots[i]) == Replace(snap, slots, j, slots[j])
  {
    assert slots[i := slots[i]] == slots == slots[j := slots[j]];
  }

  // ---------------------------------------------------------------------------------------
  // The commit protocol of `is_interesting(s)`, sequentialised.

  /** The cap on failed rechecks of one proposal; one more is an engine invariant violation. */
  const MaxRetries: nat := 100

  /** How one proposal ends: committed, rejected by the oracle, or the retry assertion failed. */
  datatype Verdict = Accepted | Rejected | RetryCapExceeded

  /**
   * The slot writes other tasks make while the oracle call of round `k` of a proposal is in
   * flight. Once a proposal is merging, that call is its only suspension point.
   */
  type Interference = nat -> map<nat, seq<byte>>

  /** The slots after the writes `w`. */
  function Overwrite(slots: seq<seq<byte>>, w: map<nat, seq<byte>>): (r: seq<seq<byte>>)
    ensures |r| == |slots|
    ensures forall j :: 0 <= j < |slots| ==> r[j] == if j in w then w[j] else slots[j]
  {
    seq(|slots|, j requires 0 <= j < |slots| => if j in w then w[j] else slots[j])
  }

  /** The slots after the interference of rounds `lo` up to `hi`, and nothing else. */
  function Interleaved(slots: seq<seq<byte>>, interfere: Interference, lo: nat, hi: nat)
    : (r: seq<seq<byte>>)
    requires lo <= hi
    ensures |r| == |slots|
    decreases hi - lo
  {
    if lo == hi then slots else Interleaved(Overwrite(slots, interfere(lo)), interfere, lo + 1, hi)
  }

  /** The end of a proposal: its verdict, the slots afterwards and the oracle calls it made. */
  datatype Run = Run(verdict: Verdict, slots: seq<seq<byte>>, calls: nat)

  /**
   * Proposal `s` for region `i`, from round `retries` on, starting from `slots`: compute
   * `attempt`, ask the oracle while the siblings write, and commit only if a fresh
   * reconstruction still equals `attempt`.
   */
  function Rounds(snap: Snapshot, slots: seq<seq<byte>>, i: nat, s: seq<byte>,
                  oracle: seq<byte> -> bool, interfere: Interference, retries: nat): Run
    requires WellFormed(snap) && |slots| == |snap.regions| && i < |slots| && retries <= MaxRetries
    decreases MaxRetries - retries
  {
    var attempt := Replace(snap, slots, i, s);
    var after := Overwrite(slots, interfere(retries));
    if !oracle(attempt) then Run(Rejected, after, retries + 1)
    else if Replace(snap, after, i, s) == attempt then Run(Accepted, after[i := s], retries + 1)
    else if retries + 1 > MaxRetries then Run(RetryCapExceeded, after, retries + 1)
    else Rounds(snap, after, i, s, oracle, interfere, retries + 1)
  }

  /**
   * An accepted proposal writes `s` into slot `i` and nothing else, and the candidate the slots
   * then describe is exactly one the oracle accepted.
   */
  lemma {:induction false} RoundsAccepted(snap: Snapshot, slots: seq<seq<byte>>, i: nat,
      s: seq<byte>, oracle: seq<byte> -> bool, interfere: Interference, retries: nat)
    requires WellFormed(snap) && |slots| == |snap.regions| && i < |slots| && retries <= MaxRetries
    ensures var run := Rounds(snap, slots, i, s, oracle, interfere, retries);
            run.verdict == Accepted ==>
              retries < run.calls &&
              run.slots == Interleaved(slots, interfere, retries, run.calls)[i := s] &&
              oracle(Splice(snap, run.slots))
    decreases MaxRetries - retries
  {
    var attempt := Replace(snap, slots, i, s);
    var after := Overwrite(slots, interfere(retries));
    var run := Rounds(snap, slots, i, s, oracle, interfere, retries);
    if run.verdict == Accepted {
      if oracle(attempt) && Replace(snap, after, i, s) == attempt {
        assert Interleaved(slots, interfere, retries, retries + 1) == after;
        assert after[i := s][i := s] == after[i := s];
      } else {
        RoundsAccepted(snap, after, i, s, oracle, interfere, retries + 1);
      }
    }
  }

  /** A proposal that is not accepted writes no slot: only the interference changes them. */
  lemma {:induction false} RoundsNotAccepted(snap: Snapshot, slots: seq<seq<byte>>, i: nat,
      s: seq<byte>, oracle: seq<byte> -> bool, interfere: Interference, retries: nat)
    requires WellFormed(snap) && |slots| == |snap.regions| && i < |slots| && retries <= MaxRetries
    ensures var run := Rounds(snap, slots, i, s, oracle, interfere, retries);
            run.verdict != Accepted ==>
              retries < run.calls && run.slots == Interleaved(slots, interfere, retries, run.calls)
    decreases MaxRetries - retries
  {
    var attempt := Replace(snap, slots, i, s);
    var after := Overwrite(slots, interfere(retries));
    if oracle(attempt) && Replace(snap, after, i, s) != attempt && retries + 1 <= MaxRetries {
      RoundsNotAccepted(snap, after, i, s, oracle, interfere, retries + 1);
    }
  }

  /**
   * A proposal asks the oracle at most `MaxRetries + 1` times; the retry assertion fails only
   * after exactly that many calls.
   */
  lemma {:induction false} RoundsBounded(snap: Snapshot, slots: seq<seq<byte>>, i: nat,
      s: seq<byte>, oracle: seq<byte> -> bool, interfere: Interference, retries: nat)
    requires WellFormed(snap) && |slots| == |snap.regions| && i < |slots| && retries <= MaxRetries
    ensures var run := Rounds(snap, slots, i, s, oracle, interfere, retries);
            retries < run.calls <= MaxRetries + 1 &&
            (run.verdict == RetryCapExceeded ==> run.calls == MaxRetries + 1)
    decreases MaxRetries - retries
  {
    var attempt := Replace(snap, slots, i, s);
    var after := Overwrite(slots, interfere(retries));
    if oracle(attempt) && Replace(snap, after, i, s) != attempt && retries + 1 <= MaxRetries {
      RoundsBounded(snap, after, i, s, oracle, interfere, retries + 1);
    }
  }

  /**
   * Without interference a proposal needs one oracle call, never retries, and is accepted
   * exactly when the oracle accepts `replace(i, s)`.
   */
  lemma RoundsQuiet(snap: Snapshot, slots: seq<seq<byte>>, i: nat, s: seq<byte>,
      oracle: seq<byte> -> bool, interfere: Interference, retries: nat)
    requires WellFormed(snap) && |slots| == |snap.regions| && i < |slots| && retries <= MaxRetries
    requires interfere(retries) == map[]
    ensures var run := Rounds(snap, slots, i, s, oracle, interfere, retries);
            run.calls == retries + 1 &&
            (run.verdict == Accepted <==> oracle(Replace(snap, slots, i, s))) &&
            run.verdict != RetryCapExceeded
  {
    assert Overwrite(slots, interfere(retries)) == slots;
  }

  // ---------------------------------------------------------------------------------------
  // The engine's state, as the pass holds it while the region tasks run.

  class RegionPass {
    const initial: seq<byte>
    const regions: seq<Span>
    /** One slot per region: the last replacement confirmed for it. */
    const replacements: array<seq<byte>>
    /** `current_merge_attempts`: how many proposals are in their retry state. */
    var mergeAttempts: int

    function Snap(): Snapshot {
      Snapshot(initial, regions)
    }

    ghost predicate Valid()
      reads this
    {
      WellFormed(Snap()) && replacements.Length == |regions| && mergeAttempts >= 0
    }

    /** The candidate the slots describe: `replace(i, replacements[i])` for any `i`. */
    function Current(): seq<byte>
      reads this, replacements
      requires Valid()
    {
      Splice(Snap(), replacements[..])
    }

    /** Scan `text`, and give each region a slot holding its matched text. */
    constructor (text: seq<byte>, search: Searcher)
      requires SearchContract(search, text)
      ensures Valid() && fresh(replacements)
      ensures initial == text && regions == Scan(search, text, 0)
      ensures replacements[..] == Originals(Snap()) && mergeAttempts == 0
      ensures Current() == text
    {
      var found := ScanRegions(text, search);
      initial := text;
      regions := found;
      mergeAttempts := 0;
      var originals := Originals(Snapshot(text, found));
      replacements := new seq<byte>[|found|](k requires 0 <= k < |found| => originals[k]);
      new;
      assert replacements[..] == originals;
      SpliceOriginals(Snap());
    }

    /** The writes other region tasks make while an oracle call is in flight. */
    method SiblingWrites(w: map<nat, seq<byte>>)
      modifies replacements
      ensures replacements[..] == Overwrite(old(replacements[..]), w)
    {
      forall j | 0 <= j < replacements.Length && j in w {
        replacements[j] := w[j];
      }
    }

    /**
     * One round of a proposal: reconstruct `attempt`, ask the oracle while the siblings write
     * `w`, and reconstruct again.
     */
    method Round(i: nat, s: seq<byte>, oracle: seq<byte> -> bool, w: map<nat, seq<byte>>)
      returns (interesting: bool, same: bool)
      requires Valid() && i < |regions|
      modifies replacements
      ensures replacements[..] == Overwrite(old(replacements[..]), w)
      ensures interesting == oracle(Replace(Snap(), old(replacements[..]), i, s))
      ensures same == (Replace(Snap(), replacements[..], i, s)
                       == Replace(Snap(), old(replacements[..]), i, s))
    {
      var attempt := Replace(Snap(), replacements[..], i, s);
      interesting := oracle(attempt);
      SiblingWrites(w);
      same := Replace(Snap(), replacements[..], i, s) == attempt;
    }

    /**
     * The body of the retry loop: one round, committing `s` when the reconstruction is stable.
     * No verdict means the recheck disagreed and the proposal has to go round again.
     */
    method Attempt(i: nat, s: seq<byte>, oracle: seq<byte> -> bool, interfere: Interference,
                   retries: nat)
      returns (outcome: Option<Verdict>)
      requires Valid() && i < |regions| && retries <= MaxRetries
      modifies replacements
      ensures outcome != Some(RetryCapExceeded)
      ensures outcome.Some? ==> Rounds(Snap(), old(replacements[..]), i, s, oracle, interfere, retries)
                                == Run(outcome.value, replacements[..], retries + 1)
      ensures outcome.None? ==>
                var after := replacements[..];
                Rounds(Snap(), old(replacements[..]), i, s, oracle, interfere, retries)
                == if retries + 1 > MaxRetries then Run(RetryCapExceeded, after, retries + 1)
                   else Rounds(Snap(), after, i, s, oracle, interfere, retries + 1)
      ensures outcome == Some(Accepted) ==> replacements[i] == s && oracle(Current())
    {
      ghost var before := replacements[..];
      var interesting, same := Round(i, s, oracle, interfere(retries));
      RoundsStep(Snap(), before, i, s, oracle, interfere, retries);
      if !interesting {
        return Some(Rejected);
      }
      if same {
        replacements[i] := s;
        RoundsAccepted(Snap(), before, i, s, oracle, interfere, retries);
        return Some(Accepted);
      }
      return None;
    }

    /**
     * `is_interesting(s)` for region `i`: propose `s`, and commit it to slot `i` only if the
     * oracle accepted the reconstruction and a fresh reconstruction still equals it.
     */
    method Propose(i: nat, s: seq<byte>, oracle: seq<byte> -> bool, interfere: Interference)
      returns (verdict: Verdict)
      requires Valid() && i < |regions|
      modifies this`mergeAttempts, replacements
      ensures Valid() && mergeAttempts == old(mergeAttempts)
      ensures var run := Rounds(Snap(), old(replacements[..]), i, s, oracle, interfere, 0);
              verdict == run.verdict && replacements[..] == run.slots
      ensures verdict == Accepted ==> replacements[i] == s && oracle(Current())
    {
      ghost var start := replacements[..];
      ghost var snap := Snap();
      var merging := false;
      var retries: nat := 0;
      while true
        invariant 0 <= retries <= MaxRetries && replacements.Length == |regions|
        invariant Rounds(snap, start, i, s, oracle, interfere, 0)
               == Rounds(snap, replacements[..], i, s, oracle, interfere, retries)
        invariant merging <==> retries > 0
        invariant mergeAttempts == old(mergeAttempts) + (if merging then 1 else 0)
        decreases MaxRetries - retries
      {
        var outcome := Attempt(i, s, oracle, interfere, retries);
        if outcome.Some? {
          verdict := outcome.value;
          break;
        }
        if !merging {
          merging := true;
          mergeAttempts := mergeAttempts + 1;
        }
        retries := retries + 1;
        if retries > MaxRetries {
          verdict := RetryCapExceeded;
          break;
        }
      }
      if merging {
        mergeAttempts := mergeAttempts - 1;
        assert mergeAttempts >= 0;
      }
    }
  }

  /** One round of `Rounds`, by the verdict of the oracle and of the recheck. */
  lemma RoundsStep(snap: Snapshot, slots: seq<seq<byte>>, i: nat, s: seq<byte>,
      oracle: seq<byte> -> bool, interfere: Interference, retries: nat)
    requires WellFormed(snap) && |slots| == |snap.regions| && i < |slots| && retries <= MaxRetries
    ensures var attempt := Replace(snap, slots, i, s);
            var after := Overwrite(slots, interfere(retries));
            var run := Rounds(snap, slots, i, s, oracle, interfere, retries);
            (!oracle(attempt) ==> run == Run(Rejected, after, retries + 1)) &&
            (oracle(attempt) && Replace(snap, after, i, s) == attempt ==>
               run == Run(Accepted, after[i := s], retries + 1)) &&
            (oracle(attempt) && Replace(snap, after, i, s) != attempt && retries + 1 > MaxRetries ==>
               run == Run(RetryCapExceeded, after, retries + 1)) &&
            (oracle(attempt) && Replace(snap, after, i, s) != attempt && retries + 1 <= MaxRetries ==>
               run == Rounds(snap, after, i, s, oracle, interfere, retries + 1))
  {
  }
}
