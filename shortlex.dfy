/** `shortlex`: order byte strings by length, then by Python's byte-wise comparison. */
module Shortlex {

  import opened Bytes

  type Token = seq<byte>

  /** Python's `a < b` on `bytes`: the first differing byte decides, a proper prefix is smaller. */
  predicate LexLess(a: seq<byte>, b: seq<byte>)
    decreases |a|
  {
    |b| > 0 && (|a| == 0 || a[0] < b[0] || (a[0] == b[0] && LexLess(a[1..], b[1..])))
  }

  /** `shortlex(a) < shortlex(b)`, comparing the tuples `(len(a), a)` and `(len(b), b)`. */
  predicate ShortlexLess(a: seq<byte>, b: seq<byte>) {
    |a| < |b| || (|a| == |b| && LexLess(a, b))
  }

  lemma {:induction false} LexIrreflexive(a: seq<byte>)
    ensures !LexLess(a, a)
    decreases |a|
  {
    if |a| > 0 {
      LexIrreflexive(a[1..]);
    }
  }

  lemma {:induction false} LexTransitive(a: seq<byte>, b: seq<byte>, c: seq<byte>)
    requires LexLess(a, b) && LexLess(b, c)
    ensures LexLess(a, c)
    decreases |a|
  {
    if |a| > 0 && a[0] == b[0] == c[0] {
      LexTransitive(a[1..], b[1..], c[1..]);
    }
  }

  lemma {:induction false} LexTotal(a: seq<byte>, b: seq<byte>)
    requires a != b
    ensures LexLess(a, b) || LexLess(b, a)
    decreases |a|
  {
    if |a| > 0 && |b| > 0 && a[0] == b[0] {
      assert a == [a[0]] + a[1..] && b == [b[0]] + b[1..];
      LexTotal(a[1..], b[1..]);
    }
  }

  /** Shortlex is a strict total order: irreflexive, transitive, and total on distinct strings. */
  lemma ShortlexOrder()
    ensures forall a :: !ShortlexLess(a, a)
    ensures forall a, b, c :: ShortlexLess(a, b) && ShortlexLess(b, c) ==> ShortlexLess(a, c)
    ensures forall a, b :: a != b ==> ShortlexLess(a, b) || ShortlexLess(b, a)
  {
    forall a: seq<byte> ensures !ShortlexLess(a, a) {
      LexIrreflexive(a);
    }
    forall a: seq<byte>, b: seq<byte>, c: seq<byte> | ShortlexLess(a, b) && ShortlexLess(b, c)
      ensures ShortlexLess(a, c)
    {
      if |a| == |b| == |c| {
        LexTransitive(a, b, c);
      }
    }
    forall a: seq<byte>, b: seq<byte> | a != b ensures ShortlexLess(a, b) || ShortlexLess(b, a) {
      if |a| == |b| {
        LexTotal(a, b);
      }
    }
  }

  lemma ShortlexAsymmetric(a: seq<byte>, b: seq<byte>)
    requires ShortlexLess(a, b)
    ensures !ShortlexLess(b, a)
  {
    ShortlexOrder();
  }

  /** `m` is the shortlex-least member of `s`. */
  predicate IsLeast(m: Token, s: set<Token>) {
    m in s && forall y :: y in s && y != m ==> ShortlexLess(m, y)
  }

  lemma {:induction false} LeastExists(s: set<Token>)
    requires s != {}
    ensures exists m :: IsLeast(m, s)
    decreases |s|
  {
    var y :| y in s;
    if s != {y} {
      var rest := s - {y};
      LeastExists(rest);
      var m :| IsLeast(m, rest);
      ShortlexOrder();
      if ShortlexLess(y, m) {
        forall z | z in s && z != y ensures ShortlexLess(y, z) {
          if z != m {
            assert ShortlexLess(m, z);
          }
        }
        assert IsLeast(y, s);
      } else {
        assert IsLeast(m, s);
      }
    } else {
      assert IsLeast(y, s);
    }
  }

  lemma LeastUnique(s: set<Token>)
    ensures forall a, b :: IsLeast(a, s) && IsLeast(b, s) ==> a == b
  {
    ShortlexOrder();
  }

  predicate StrictlyAscending(r: seq<Token>) {
    forall j, k :: 0 <= j < k < |r| ==> ShortlexLess(r[j], r[k])
  }

  predicate StrictlyDescending(r: seq<Token>) {
    forall j, k :: 0 <= j < k < |r| ==> ShortlexLess(r[k], r[j])
  }

  /** `sorted(s, key=shortlex)`: the members of `s`, each once, in ascending shortlex order. */
  function SortAscending(s: set<Token>): (r: seq<Token>)
    ensures |r| == |s| && StrictlyAscending(r)
    ensures forall t :: t in r <==> t in s
    decreases |s|
  {
    if s == {} then []
    else
      LeastExists(s);
      LeastUnique(s);
      var m :| IsLeast(m, s);
      var rest := SortAscending(s - {m});
      ConsAscending(m, rest);
      [m] + rest
  }

  /** A token below every element of an ascending sequence can go in front of it. */
  lemma ConsAscending(m: Token, rest: seq<Token>)
    requires StrictlyAscending(rest)
    requires forall t :: t in rest ==> ShortlexLess(m, t)
    ensures StrictlyAscending([m] + rest)
  {
    var r := [m] + rest;
    forall j, k | 0 <= j < k < |r| ensures ShortlexLess(r[j], r[k]) {
      assert r[k] == rest[k - 1];
      if j > 0 {
        assert r[j] == rest[j - 1];
      }
    }
  }

  /** `sorted(s, key=shortlex, reverse=True)`; the keys are distinct, so this is the reverse. */
  function SortDescending(s: set<Token>): (r: seq<Token>)
    ensures |r| == |s| && StrictlyDescending(r)
    ensures forall t :: t in r <==> t in s
  {
    var up := SortAscending(s);
    var r := seq(|up|, k requires 0 <= k < |up| => up[|up| - 1 - k]);
    assert forall t :: t in r <==> t in up by {
      forall t | t in up ensures t in r {
        var k :| 0 <= k < |up| && up[k] == t;
        assert r[|up| - 1 - k] == t;
      }
    }
    r
  }

  lemma HeadIsMember(r: seq<Token>)
    requires r != []
    ensures r[0] in r
  {
  }

  /** A strictly ascending sequence is determined by its members: sorting has one answer. */
  lemma {:induction false} AscendingUnique(r: seq<Token>, q: seq<Token>)
    requires StrictlyAscending(r) && StrictlyAscending(q)
    requires forall t :: t in r <==> t in q
    ensures r == q
    decreases |r|
  {
    if r != [] && q != [] {
      var members := set t | t in r;
      assert IsLeast(r[0], members);
      assert IsLeast(q[0], members) by {
        forall y | y in members && y != q[0] ensures ShortlexLess(q[0], y) {
          var k :| 0 <= k < |q| && q[k] == y;
        }
      }
      LeastUnique(members);
      assert r == [r[0]] + r[1..] && q == [q[0]] + q[1..];
      ShortlexOrder();
      forall t ensures t in r[1..] <==> t in q[1..] {
        if t in r[1..] {
          var k :| 1 <= k < |r| && r[k] == t;
          assert t in q && t != q[0];
        }
        if t in q[1..] {
          var k :| 1 <= k < |q| && q[k] == t;
          assert t in r && t != r[0];
        }
      }
      AscendingUnique(r[1..], q[1..]);
    } else if r != [] {
      HeadIsMember(r);
      assert false;
    } else if q != [] {
      HeadIsMember(q);
      assert false;
    }
  }
}
