/**
 * `normalize_identifiers`: rename each identifier-like token, biggest first, to the first
 * shortlex-smaller token from a pool for which the renamed test case is still interesting.
 */
module IdentifierRenaming {

  import opened Bytes
  import opened Shortlex

  /** A non-empty run of word bytes: what the pattern `IDENTIFIER` matches. */
  predicate IsToken(t: seq<byte>) {
    |t| > 0 && forall k :: 0 <= k < |t| ==> IsWordByte(t[k])
  }

  predicate AllTokens(ts: seq<Token>) {
    forall k :: 0 <= k < |ts| ==> IsToken(ts[k])
  }

  /** `ascii_lowercase` and `ascii_uppercase`, as bytes. */
  const Lowercase: seq<byte> := [97, 98, 99, 100, 101, 102, 103, 104, 105, 106, 107, 108, 109, 110, 111, 112, 113, 114, 115, 116, 117, 118, 119, 120, 121, 122]
  const Uppercase: seq<byte> := [65, 66, 67, 68, 69, 70, 71, 72, 73, 74, 75, 76, 77, 78, 79, 80, 81, 82, 83, 84, 85, 86, 87, 88, 89, 90]

  /** The character types the pool loop walks through, in order. */
  const CharTypes: seq<seq<byte>> := [Lowercase, Uppercase]

  // ---------------------------------------------------------------------------------------
  // The replacement pool.

  /** The first index from `k` on whose one-letter token is not in `used`. */
  function FirstUnused(letters: seq<byte>, used: set<Token>, k: nat): (r: Option<nat>)
    requires k <= |letters|
    ensures r.Some? ==> k <= r.value < |letters| && [letters[r.value]] !in used
    ensures forall j :: k <= j < (if r.Some? then r.value else |letters|) ==> [letters[j]] in used
    decreases |letters| - k
  {
    if k == |letters| then None
    else if [letters[k]] !in used then Some(k)
    else FirstUnused(letters, used, k + 1)
  }

  /** The one-letter token the inner loop adds for `letters`, if any letter is still unused. */
  function NewLetter(used: set<Token>, letters: seq<byte>): (r: set<Token>)
    ensures |r| <= 1
  {
    match FirstUnused(letters, used, 0)
    case None => {}
    case Some(k) => {[letters[k]]}
  }

  /** The pool after the inner loops for the first `a` character types. */
  function PoolAfter(identifiers: set<Token>, charTypes: seq<seq<byte>>, a: nat): set<Token>
    requires a <= |charTypes|
  {
    if a == 0 then identifiers else WithLetter(PoolAfter(identifiers, charTypes, a - 1), charTypes[a - 1])
  }

  /** `used` after the inner loop for `letters`. */
  function WithLetter(used: set<Token>, letters: seq<byte>): set<Token> {
    used + NewLetter(used, letters)
  }

  /** The set `replacements` holds once both loops are done. */
  function Pool(identifiers: set<Token>): set<Token> {
    PoolAfter(identifiers, CharTypes, 2)
  }

  /** The loops of the pool: for each character type, add its first letter not yet in the pool. */
  method BuildPool(identifiers: set<Token>) returns (pool: set<Token>)
    ensures pool == Pool(identifiers)
  {
    pool := identifiers;
    for a := 0 to |CharTypes|
      invariant pool == PoolAfter(identifiers, CharTypes, a)
    {
      pool := AddFirstUnused(pool, CharTypes[a]);
    }
  }

  /** The inner loop: add the first letter whose one-byte token is missing, then stop. */
  method AddFirstUnused(used: set<Token>, letters: seq<byte>) returns (pool: set<Token>)
    ensures pool == WithLetter(used, letters)
  {
    pool := used;
    for k := 0 to |letters|
      invariant pool == used
      invariant forall j :: 0 <= j < k ==> [letters[j]] in used
    {
      var c := [letters[k]];
      if c !in pool {
        pool := pool + {c};
        assert FirstUnused(letters, used, 0) == Some(k);
        return;
      }
    }
  }

  /** The two alphabets, letter by letter. */
  lemma Alphabets()
    ensures |Lowercase| == 26 && forall k :: 0 <= k < 26 ==> Lowercase[k] as int == 97 + k
    ensures |Uppercase| == 26 && forall k :: 0 <= k < 26 ==> Uppercase[k] as int == 65 + k
  {
  }

  lemma {:induction false} FirstUnusedIgnores(letters: seq<byte>, used: set<Token>, extra: set<Token>, k: nat)
    requires k <= |letters|
    requires forall j :: 0 <= j < |letters| ==> [letters[j]] !in extra
    ensures FirstUnused(letters, used + extra, k) == FirstUnused(letters, used, k)
    decreases |letters| - k
  {
    if k < |letters| {
      FirstUnusedIgnores(letters, used, extra, k + 1);
    }
  }

  /**
   * The pool is the identifiers plus at most one lowercase and one uppercase letter, each the
   * alphabetically first letter of its case that is not already an identifier.
   */
  lemma PoolShape(identifiers: set<Token>)
    ensures Pool(identifiers) ==
            identifiers + NewLetter(identifiers, Lowercase) + NewLetter(identifiers, Uppercase)
    ensures forall c :: c in NewLetter(identifiers, Lowercase) ==>
              c !in identifiers && |c| == 1 && IsLower(c[0]) &&
              forall b: byte :: IsLower(b) && b < c[0] ==> [b] in identifiers
    ensures forall c :: c in NewLetter(identifiers, Uppercase) ==>
              c !in identifiers && |c| == 1 && IsUpper(c[0]) &&
              forall b: byte :: IsUpper(b) && b < c[0] ==> [b] in identifiers
    ensures (exists b: byte :: IsLower(b) && [b] !in identifiers) <==>
            |NewLetter(identifiers, Lowercase)| == 1
    ensures (exists b: byte :: IsUpper(b) && [b] !in identifiers) <==>
            |NewLetter(identifiers, Uppercase)| == 1
  {
    PoolUnion(identifiers);
    LowerLetter(identifiers);
    UpperLetter(identifiers);
    LowerLetterAdded(identifiers);
    UpperLetterAdded(identifiers);
  }

  lemma LowerLetter(identifiers: set<Token>)
    ensures forall c :: c in NewLetter(identifiers, Lowercase) ==>
              c !in identifiers && |c| == 1 && IsLower(c[0]) &&
              forall b: byte :: IsLower(b) && b < c[0] ==> [b] in identifiers
  {
    Alphabets();
    RangeLetter(identifiers, Lowercase, 97);
  }

  lemma LowerLetterAdded(identifiers: set<Token>)
    ensures (exists b: byte :: IsLower(b) && [b] !in identifiers) <==>
            |NewLetter(identifiers, Lowercase)| == 1
  {
    Alphabets();
    RangeLetterAdded(identifiers, Lowercase, 97);
  }

  lemma UpperLetter(identifiers: set<Token>)
    ensures forall c :: c in NewLetter(identifiers, Uppercase) ==>
              c !in identifiers && |c| == 1 && IsUpper(c[0]) &&
              forall b: byte :: IsUpper(b) && b < c[0] ==> [b] in identifiers
  {
    Alphabets();
    RangeLetter(identifiers, Uppercase, 65);
  }

  lemma UpperLetterAdded(identifiers: set<Token>)
    ensures (exists b: byte :: IsUpper(b) && [b] !in identifiers) <==>
            |NewLetter(identifiers, Uppercase)| == 1
  {
    Alphabets();
    RangeLetterAdded(identifiers, Uppercase, 65);
  }

  /** The uppercase loop is not disturbed by the lowercase letter just added. */
  lemma PoolUnion(identifiers: set<Token>)
    ensures Pool(identifiers) ==
            identifiers + NewLetter(identifiers, Lowercase) + NewLetter(identifiers, Uppercase)
  {
    Alphabets();
    var lower := NewLetter(identifiers, Lowercase);
    RangeLetter(identifiers, Lowercase, 97);
    forall j | 0 <= j < |Uppercase| ensures [Uppercase[j]] !in lower {
      assert Uppercase[j] as int < 97;
    }
    FirstUnusedIgnores(Uppercase, identifiers, lower, 0);
    PoolUnfold(identifiers);
    assert WithLetter(identifiers, Lowercase) == identifiers + lower;
    assert NewLetter(identifiers + lower, Uppercase) == NewLetter(identifiers, Uppercase);
  }

  /** The pool loop run over the two character types. */
  lemma PoolUnfold(identifiers: set<Token>)
    ensures Pool(identifiers) == WithLetter(WithLetter(identifiers, Lowercase), Uppercase)
  {
    assert CharTypes[0] == Lowercase && CharTypes[1] == Uppercase;
    assert PoolAfter(identifiers, CharTypes, 0) == identifiers;
    assert PoolAfter(identifiers, CharTypes, 1) == WithLetter(identifiers, Lowercase);
  }

  /**
   * The letter added for a run of consecutive bytes from `base` on: an unused one-byte token
   * in the run, all of whose predecessors in the run are used.
   */
  lemma RangeLetter(used: set<Token>, letters: seq<byte>, base: int)
    requires forall k :: 0 <= k < |letters| ==> letters[k] as int == base + k
    ensures forall c :: c in NewLetter(used, letters) ==>
              c !in used && |c| == 1 && base <= c[0] as int < base + |letters| &&
              forall b: byte :: base <= b as int < c[0] as int ==> [b] in used
  {
    var r := FirstUnused(letters, used, 0);
    if r.Some? {
      var c := [letters[r.value]];
      assert NewLetter(used, letters) == {c};
      forall b: byte | base <= b as int < c[0] as int ensures [b] in used {
        assert letters[b as int - base] == b;
      }
    }
  }

  /** A letter is added for a run of consecutive bytes exactly when one of them is unused. */
  lemma RangeLetterAdded(used: set<Token>, letters: seq<byte>, base: int)
    requires forall k :: 0 <= k < |letters| ==> letters[k] as int == base + k
    ensures (exists b: byte :: base <= b as int < base + |letters| && [b] !in used) <==>
            |NewLetter(used, letters)| == 1
  {
    var r := FirstUnused(letters, used, 0);
    if r.Some? {
      assert NewLetter(used, letters) == {[letters[r.value]]};
      assert letters[r.value] as int == base + r.value;
    } else {
      forall b: byte | base <= b as int < base + |letters| ensures [b] in used {
        assert letters[b as int - base] == b;
      }
    }
  }

  /** Every member of the pool is a token, so it can stand in for one. */
  lemma PoolTokens(identifiers: set<Token>)
    requires forall t :: t in identifiers ==> IsToken(t)
    ensures forall t :: t in Pool(identifiers) ==> IsToken(t)
  {
    PoolUnion(identifiers);
    LowerLetter(identifiers);
    UpperLetter(identifiers);
  }

  // ---------------------------------------------------------------------------------------
  // Whole-word substitution: `re.sub(rb"\b" + t + rb"\b", r, source)`.

  /** `\bt\b` matches at the start of `src`; `prevWord` says whether the byte before is `\w`. */
  predicate MatchesAt(src: seq<byte>, t: Token, prevWord: bool) {
    !prevWord && |t| <= |src| && src[..|t|] == t && (|t| == |src| || !IsWordByte(src[|t|]))
  }

  predicate MentionsFrom(src: seq<byte>, t: Token, prevWord: bool)
    decreases |src|
  {
    |src| > 0 && (MatchesAt(src, t, prevWord) || MentionsFrom(src[1..], t, IsWordByte(src[0])))
  }

  /** `pattern.search(source)` succeeds: `t` occurs in `src` as a whole word. */
  predicate Mentions(src: seq<byte>, t: Token) {
    MentionsFrom(src, t, false)
  }

  function SubstituteFrom(src: seq<byte>, t: Token, r: Token, prevWord: bool): seq<byte>
    requires |t| > 0
    decreases |src|
  {
    if |src| == 0 then []
    else if MatchesAt(src, t, prevWord) then
      r + SubstituteFrom(src[|t|..], t, r, IsWordByte(t[|t| - 1]))
    else
      [src[0]] + SubstituteFrom(src[1..], t, r, IsWordByte(src[0]))
  }

  /** `pattern.sub(r, source)`: every whole-word occurrence of `t`, left to right, becomes `r`. */
  function Substitute(src: seq<byte>, t: Token, r: Token): seq<byte>
    requires |t| > 0
  {
    SubstituteFrom(src, t, r, false)
  }

  lemma {:induction false} SubstituteFromUnmentioned(src: seq<byte>, t: Token, r: Token, prevWord: bool)
    requires |t| > 0 && !MentionsFrom(src, t, prevWord)
    ensures SubstituteFrom(src, t, r, prevWord) == src
    decreases |src|
  {
    if |src| > 0 {
      SubstituteFromUnmentioned(src[1..], t, r, IsWordByte(src[0]));
      assert src == [src[0]] + src[1..];
    }
  }

  /** Substituting a token that does not occur leaves the text as it is. */
  lemma SubstituteUnmentioned(src: seq<byte>, t: Token, r: Token)
    requires |t| > 0 && !Mentions(src, t)
    ensures Substitute(src, t, r) == src
  {
    SubstituteFromUnmentioned(src, t, r, false);
  }

  lemma {:induction false} SubstituteFromChanges(src: seq<byte>, t: Token, r: Token, prevWord: bool)
    requires IsToken(t) && IsToken(r) && r != t && MentionsFrom(src, t, prevWord)
    ensures SubstituteFrom(src, t, r, prevWord) != src
    decreases |src|
  {
    var out := SubstituteFrom(src, t, r, prevWord);
    if MatchesAt(src, t, prevWord) {
      var rest := src[|t|..];
      var tail := SubstituteFrom(rest, t, r, true);
      assert out == r + tail;
      assert src == t + rest;
      if |r| == |t| {
        assert out[..|r|] == r;
      } else if rest == [] {
        assert |out| != |src|;
      } else {
        assert !IsWordByte(rest[0]);
        assert !MatchesAt(rest, t, true);
        assert tail[0] == rest[0];
        if |r| < |t| {
          assert out[|r|] == rest[0] && src[|r|] == t[|r|];
        } else {
          assert out[|t|] == r[|t|] && src[|t|] == rest[0];
        }
      }
    } else {
      SubstituteFromChanges(src[1..], t, r, IsWordByte(src[0]));
      assert out[1..] != src[1..];
    }
  }

  /** Substituting a different token for one that occurs changes the text (line 251's assertion). */
  lemma SubstituteChanges(src: seq<byte>, t: Token, r: Token)
    requires IsToken(t) && IsToken(r) && r != t && Mentions(src, t)
    ensures Substitute(src, t, r) != src
  {
    SubstituteFromChanges(src, t, r, false);
  }

  lemma {:induction false} SubstituteFromNotLonger(src: seq<byte>, t: Token, r: Token, prevWord: bool)
    requires |t| > 0 && |r| <= |t|
    ensures |SubstituteFrom(src, t, r, prevWord)| <= |src|
    decreases |src|
  {
    if |src| > 0 {
      if MatchesAt(src, t, prevWord) {
        SubstituteFromNotLonger(src[|t|..], t, r, IsWordByte(t[|t| - 1]));
      } else {
        SubstituteFromNotLonger(src[1..], t, r, IsWordByte(src[0]));
      }
    }
  }

  /** Renaming to a token no longer than the original never lengthens the text. */
  lemma SubstituteNotLonger(src: seq<byte>, t: Token, r: Token)
    requires |t| > 0 && |r| <= |t|
    ensures |Substitute(src, t, r)| <= |src|
  {
    SubstituteFromNotLonger(src, t, r, false);
  }

  lemma {:induction false} SubstituteFromShorter(src: seq<byte>, t: Token, r: Token, prevWord: bool)
    requires |t| > 0 && |r| < |t| && MentionsFrom(src, t, prevWord)
    ensures |SubstituteFrom(src, t, r, prevWord)| < |src|
    decreases |src|
  {
    if MatchesAt(src, t, prevWord) {
      SubstituteFromNotLonger(src[|t|..], t, r, IsWordByte(t[|t| - 1]));
    } else {
      SubstituteFromShorter(src[1..], t, r, IsWordByte(src[0]));
    }
  }

  lemma {:induction false} SubstituteFromSameLength(src: seq<byte>, t: Token, r: Token, prevWord: bool)
    requires |t| > 0 && |r| == |t|
    ensures |SubstituteFrom(src, t, r, prevWord)| == |src|
    decreases |src|
  {
    if |src| > 0 {
      if MatchesAt(src, t, prevWord) {
        SubstituteFromSameLength(src[|t|..], t, r, IsWordByte(t[|t| - 1]));
      } else {
        SubstituteFromSameLength(src[1..], t, r, IsWordByte(src[0]));
      }
    }
  }

  /** Equal-length prefixes in order keep their order whatever follows them. */
  lemma {:induction false} LexLessExtend(a: seq<byte>, b: seq<byte>, x: seq<byte>, y: seq<byte>)
    requires |a| == |b| && LexLess(a, b)
    ensures LexLess(a + x, b + y)
    decreases |a|
  {
    if a[0] == b[0] {
      LexLessExtend(a[1..], b[1..], x, y);
      assert (a + x)[1..] == a[1..] + x && (b + y)[1..] == b[1..] + y;
    }
  }

  lemma {:induction false} SubstituteFromLexLess(src: seq<byte>, t: Token, r: Token, prevWord: bool)
    requires |t| > 0 && |r| == |t| && LexLess(r, t) && MentionsFrom(src, t, prevWord)
    ensures LexLess(SubstituteFrom(src, t, r, prevWord), src)
    decreases |src|
  {
    var out := SubstituteFrom(src, t, r, prevWord);
    if MatchesAt(src, t, prevWord) {
      var rest := src[|t|..];
      assert src == t + rest;
      LexLessExtend(r, t, SubstituteFrom(rest, t, r, IsWordByte(t[|t| - 1])), rest);
    } else {
      SubstituteFromLexLess(src[1..], t, r, IsWordByte(src[0]));
      assert out[0] == src[0] && out[1..] == SubstituteFrom(src[1..], t, r, IsWordByte(src[0]));
    }
  }

  /**
   * Renaming a whole-word occurrence to a shortlex-smaller token makes the text itself
   * shortlex-smaller: every rename `can_replace` lets through is a reduction.
   */
  lemma SubstituteShortlexSmaller(src: seq<byte>, t: Token, r: Token)
    requires |t| > 0 && ShortlexLess(r, t) && Mentions(src, t)
    ensures ShortlexLess(Substitute(src, t, r), src)
  {
    if |r| < |t| {
      SubstituteFromShorter(src, t, r, false);
    } else {
      SubstituteFromSameLength(src, t, r, false);
      SubstituteFromLexLess(src, t, r, false);
    }
  }

  // ---------------------------------------------------------------------------------------
  // Choosing a replacement for one target.

  /** `can_replace(r)` holds: `r` is shortlex-smaller and the renamed text is interesting. */
  ghost predicate Acceptable(src: seq<byte>, t: Token, r: Token, oracle: seq<byte> -> bool)
    requires |t| > 0
  {
    ShortlexLess(r, t) && oracle(Substitute(src, t, r))
  }

  /**
   * `can_replace(r)`: refuse without asking the oracle unless `r` is shortlex-smaller than `t`;
   * otherwise ask about the renamed text. `probe` is the text sent to the oracle, if any.
   */
  method CanReplace(src: seq<byte>, t: Token, r: Token, oracle: seq<byte> -> bool)
    returns (ok: bool, probe: Option<seq<byte>>)
    requires IsToken(t) && IsToken(r) && Mentions(src, t)
    ensures probe.None? <==> !ShortlexLess(r, t)
    ensures probe.Some? ==> probe.value == Substitute(src, t, r) && probe.value != src &&
                            |probe.value| <= |src|
    ensures ok == Acceptable(src, t, r, oracle)
  {
    if !ShortlexLess(r, t) {
      return false, None;
    }
    var attempt := Substitute(src, t, r);
    ShortlexOrder();
    SubstituteChanges(src, t, r);
    SubstituteNotLonger(src, t, r);
    assert attempt != src;
    ok := oracle(attempt);
    probe := Some(attempt);
  }

  /**
   * `find_first_value(replacements, can_replace)` as a first-match linear scan: the index of
   * the first acceptable replacement, and the indices whose texts were sent to the oracle.
   */
  method FindFirstValue(pool: seq<Token>, src: seq<byte>, t: Token, oracle: seq<byte> -> bool)
    returns (found: Option<nat>, probed: seq<nat>)
    requires IsToken(t) && AllTokens(pool) && Mentions(src, t)
    ensures found.Some? ==> found.value < |pool| && Acceptable(src, t, pool[found.value], oracle)
    ensures forall k :: 0 <= k < (if found.Some? then found.value else |pool|) ==>
              !Acceptable(src, t, pool[k], oracle)
    ensures forall m :: 0 <= m < |probed| ==> probed[m] < |pool| && ShortlexLess(pool[probed[m]], t)
    ensures forall m, n :: 0 <= m < n < |probed| ==> probed[m] < probed[n]
    ensures forall k :: 0 <= k < |pool| && (found.None? || k <= found.value) && ShortlexLess(pool[k], t) ==>
              k in probed
    ensures found.Some? ==> forall m :: 0 <= m < |probed| ==> probed[m] <= found.value
  {
    probed := [];
    for k := 0 to |pool|
      invariant forall j :: 0 <= j < k ==> !Acceptable(src, t, pool[j], oracle)
      invariant forall m :: 0 <= m < |probed| ==> probed[m] < k && ShortlexLess(pool[probed[m]], t)
      invariant forall m, n :: 0 <= m < n < |probed| ==> probed[m] < probed[n]
      invariant forall j :: 0 <= j < k && ShortlexLess(pool[j], t) ==> j in probed
    {
      var ok, probe := CanReplace(src, t, pool[k], oracle);
      if probe.Some? {
        probed := probed + [k];
      }
      if ok {
        return Some(k), probed;
      }
    }
    found := None;
  }

  /** `r` is the shortlex-least acceptable member of `pool`: the first one a sorted scan meets. */
  ghost predicate FirstChoice(pool: set<Token>, src: seq<byte>, t: Token, r: Token,
                              oracle: seq<byte> -> bool)
    requires |t| > 0
  {
    r in pool && Acceptable(src, t, r, oracle) &&
    forall p :: p in pool && ShortlexLess(p, r) ==> !Acceptable(src, t, p, oracle)
  }

  /** In an ascending pool, the first acceptable entry is the shortlex-least acceptable one. */
  lemma FirstInOrderIsLeast(pool: seq<Token>, src: seq<byte>, t: Token, oracle: seq<byte> -> bool,
                            idx: nat)
    requires |t| > 0 && StrictlyAscending(pool) && idx < |pool|
    requires Acceptable(src, t, pool[idx], oracle)
    requires forall k :: 0 <= k < idx ==> !Acceptable(src, t, pool[k], oracle)
    ensures FirstChoice((set p | p in pool), src, t, pool[idx], oracle)
  {
    forall p | p in pool && ShortlexLess(p, pool[idx]) ensures !Acceptable(src, t, p, oracle) {
      var k :| 0 <= k < |pool| && pool[k] == p;
      ShortlexOrder();
      assert k < idx;
    }
  }

  // ---------------------------------------------------------------------------------------
  // The per-target loop.

  /** What happened to one target: not present, no replacement accepted, or renamed. */
  datatype Step = Skipped | Kept | Renamed(replacement: Token)

  /** The test case before target `k` is processed, replaying the steps before it. */
  function Replay(text: seq<byte>, targets: seq<Token>, steps: seq<Step>, k: nat): seq<byte>
    requires AllTokens(targets) && k <= |targets| && k <= |steps|
  {
    if k == 0 then text
    else
      var prev := Replay(text, targets, steps, k - 1);
      if steps[k - 1].Renamed? then Substitute(prev, targets[k - 1], steps[k - 1].replacement) else prev
  }

  lemma {:induction false} ReplayAppend(text: seq<byte>, targets: seq<Token>, steps: seq<Step>,
                                        step: Step, k: nat)
    requires AllTokens(targets) && k <= |targets| && k <= |steps|
    ensures Replay(text, targets, steps + [step], k) == Replay(text, targets, steps, k)
  {
    if k > 0 {
      ReplayAppend(text, targets, steps, step, k - 1);
      assert (steps + [step])[k - 1] == steps[k - 1];
    }
  }

  /** Step `k` did what the loop body does with target `k`. */
  ghost predicate StepSound(text: seq<byte>, targets: seq<Token>, steps: seq<Step>, k: nat,
                            pool: set<Token>, oracle: seq<byte> -> bool)
    requires AllTokens(targets) && k < |targets| && k < |steps|
  {
    StepSoundAt(Replay(text, targets, steps, k), targets[k], steps[k], pool, oracle)
  }

  /** What the loop body does with target `t` in text `src`. */
  ghost predicate StepSoundAt(src: seq<byte>, t: Token, step: Step, pool: set<Token>,
                              oracle: seq<byte> -> bool)
    requires |t| > 0
  {
    (step.Skipped? <==> !Mentions(src, t)) &&
    (step.Kept? ==> forall p :: p in pool ==> !Acceptable(src, t, p, oracle)) &&
    (step.Renamed? ==> FirstChoice(pool, src, t, step.replacement, oracle))
  }

  /**
   * Every step so far did what the loop body does with its target, and every rename made
   * the target shortlex-smaller.
   */
  ghost predicate AllSound(text: seq<byte>, targets: seq<Token>, steps: seq<Step>,
                           pool: set<Token>, oracle: seq<byte> -> bool)
    requires AllTokens(targets) && |steps| <= |targets|
  {
    (forall j :: 0 <= j < |steps| ==> StepSound(text, targets, steps, j, pool, oracle)) &&
    (forall j :: 0 <= j < |steps| && steps[j].Renamed? ==> ShortlexLess(steps[j].replacement, targets[j]))
  }

  /** Appending the step for target `|steps|` keeps every earlier step sound. */
  lemma ExtendSteps(text: seq<byte>, targets: seq<Token>, steps: seq<Step>, step: Step,
                    pool: set<Token>, oracle: seq<byte> -> bool)
    requires AllTokens(targets) && |steps| < |targets|
    requires AllSound(text, targets, steps, pool, oracle)
    requires StepSoundAt(Replay(text, targets, steps, |steps|), targets[|steps|], step, pool, oracle)
    requires step.Renamed? ==> ShortlexLess(step.replacement, targets[|steps|])
    ensures AllSound(text, targets, steps + [step], pool, oracle)
    ensures Replay(text, targets, steps + [step], |steps| + 1) ==
            var prev := Replay(text, targets, steps, |steps|);
            if step.Renamed? then Substitute(prev, targets[|steps|], step.replacement) else prev
  {
    var next := steps + [step];
    forall j | 0 <= j <= |steps| ensures StepSound(text, targets, next, j, pool, oracle) {
      ReplayAppend(text, targets, steps, step, j);
      if j < |steps| {
        assert StepSound(text, targets, steps, j, pool, oracle);
        assert next[j] == steps[j];
      } else {
        assert next[j] == step;
      }
    }
    ReplayAppend(text, targets, steps, step, |steps|);
    assert next[|steps|] == step;
    assert forall j :: 0 <= j < |steps| ==> next[j] == steps[j];
  }

  /**
   * The body of the loop for one target `t`, with `src` the current test case: skip it when
   * absent, otherwise rename it to the first acceptable replacement if there is one.
   */
  method ProcessTarget(src: seq<byte>, t: Token, replacements: seq<Token>,
                       oracle: seq<byte> -> bool)
    returns (step: Step, out: seq<byte>)
    requires IsToken(t) && AllTokens(replacements) && StrictlyAscending(replacements)
    ensures StepSoundAt(src, t, step, (set p | p in replacements), oracle)
    ensures out == if step.Renamed? then Substitute(src, t, step.replacement) else src
    ensures step.Renamed? ==> ShortlexLess(step.replacement, t) && oracle(out)
    ensures |out| <= |src|
  {
    out := src;
    if !Mentions(src, t) {
      return Skipped, out;
    }
    var found, probed := FindFirstValue(replacements, src, t, oracle);
    if found.None? {
      step := Kept;
      forall p | p in (set p | p in replacements) ensures !Acceptable(src, t, p, oracle) {
        var k :| 0 <= k < |replacements| && replacements[k] == p;
      }
    } else {
      var r := replacements[found.value];
      FirstInOrderIsLeast(replacements, src, t, oracle, found.value);
      SubstituteNotLonger(src, t, r);
      out := Substitute(src, t, r);
      step := Renamed(r);
    }
  }

  /** The pool, built by the loops and sorted into the order the proposals are tried in. */
  method BuildReplacements(identifiers: set<Token>) returns (pool: set<Token>, replacements: seq<Token>)
    requires forall t :: t in identifiers ==> IsToken(t)
    ensures pool == Pool(identifiers) && (set p | p in replacements) == pool
    ensures AllTokens(replacements) && StrictlyAscending(replacements)
  {
    pool := BuildPool(identifiers);
    replacements := SortAscending(pool);
    PoolTokens(identifiers);
  }

  /** The targets, like the identifiers, are tokens. */
  lemma DescendingTokens(identifiers: set<Token>)
    requires forall t :: t in identifiers ==> IsToken(t)
    ensures AllTokens(SortDescending(identifiers)) && |SortDescending(identifiers)| == |identifiers|
  {
    var targets := SortDescending(identifiers);
    forall k | 0 <= k < |targets| ensures IsToken(targets[k]) {
      assert targets[k] in targets;
    }
  }

  /**
   * `normalize_identifiers`, with the identifiers the pattern finds in `text` given as a set.
   * Each target, biggest first, is skipped when absent, kept when no pool member is
   * acceptable, and otherwise renamed to the shortlex-least acceptable pool member.
   */
  method NormalizeIdentifiers(text: seq<byte>, identifiers: set<Token>, oracle: seq<byte> -> bool)
    returns (result: seq<byte>, steps: seq<Step>)
    requires forall t :: t in identifiers ==> IsToken(t)
    ensures |steps| == |identifiers|
    ensures AllTokens(SortDescending(identifiers))
    ensures result == Replay(text, SortDescending(identifiers), steps, |steps|)
    ensures AllSound(text, SortDescending(identifiers), steps, Pool(identifiers), oracle)
    ensures result == text || oracle(result)
    ensures |result| <= |text|
  {
    var poolSet, replacements := BuildReplacements(identifiers);
    var targets := SortDescending(identifiers);
    DescendingTokens(identifiers);
    result := text;
    steps := [];
    for k := 0 to |targets|
      invariant |steps| == k
      invariant result == Replay(text, targets, steps, k)
      invariant result == text || oracle(result)
      invariant |result| <= |text|
      invariant AllSound(text, targets, steps, poolSet, oracle)
    {
      var step, out := ProcessTarget(result, targets[k], replacements, oracle);
      ExtendSteps(text, targets, steps, step, poolSet, oracle);
      steps := steps + [step];
      result := out;
    }
  }
}
