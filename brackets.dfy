/**
 * `simplify_brackets`: the byte patches that turn one kind of bracket pair into a
 * smaller-sorting kind, all at once across the test case.
 */
module Brackets {

  import opened Bytes
  import opened Shortlex

  /** A byte patch: which byte becomes which. */
  type Patch = map<byte, byte>

  /** `[b"[]", b"{}", b"()"]`: each kind as its opening byte followed by its closing byte. */
  const BracketTypes: seq<seq<byte>> := [[91, 93], [123, 125], [40, 41]]

  /** `dict(zip(u, v))`: pair up positions while both sequences last; a later key wins. */
  function ZipMap(u: seq<byte>, v: seq<byte>): (m: Patch)
    ensures m.Keys == set i | 0 <= i < |u| && i < |v| :: u[i]
    ensures forall i :: 0 <= i < |u| && i < |v| && LastAt(u, i, if |u| < |v| then |u| else |v|) ==>
              m[u[i]] == v[i]
  {
    Zip(u, v, if |u| < |v| then |u| else |v|)
  }

  /** `u[i]` does not come back among positions `i + 1 .. n - 1`. */
  predicate LastAt(u: seq<byte>, i: nat, n: nat)
    requires i < n <= |u|
  {
    forall j :: i < j < n ==> u[j] != u[i]
  }

  /** The dictionary after the first `n` pairs of the zip. */
  function Zip(u: seq<byte>, v: seq<byte>, n: nat): (m: Patch)
    requires n <= |u| && n <= |v|
    ensures m.Keys == set i | 0 <= i < n :: u[i]
    ensures forall i :: 0 <= i < n && LastAt(u, i, n) ==> m[u[i]] == v[i]
  {
    if n == 0 then map[]
    else
      var m := Zip(u, v, n - 1)[u[n - 1] := v[n - 1]];
      assert forall i :: 0 <= i < n - 1 && LastAt(u, i, n) ==> LastAt(u, i, n - 1);
      m
  }

  /** The pairs `(u, v)` with `v` from `vs` and `u > v`, in the order of `vs`. */
  function Row(u: seq<byte>, vs: seq<seq<byte>>): (r: seq<(seq<byte>, seq<byte>)>)
    ensures forall k :: 0 <= k < |r| ==> r[k].0 == u && r[k].1 in vs && LexLess(r[k].1, u)
    ensures forall v :: v in vs && LexLess(v, u) ==> (u, v) in r
  {
    if vs == [] then []
    else (if LexLess(vs[0], u) then [(u, vs[0])] else []) + Row(u, vs[1..])
  }

  /** `[(u, v) for u in us for v in types if u > v]`. */
  function Pairs(us: seq<seq<byte>>, types: seq<seq<byte>>): (r: seq<(seq<byte>, seq<byte>)>)
    ensures forall k :: 0 <= k < |r| ==> r[k].0 in us && r[k].1 in types && LexLess(r[k].1, r[k].0)
    ensures forall u, v :: u in us && v in types && LexLess(v, u) ==> (u, v) in r
  {
    if us == [] then []
    else
      var row := Row(us[0], types);
      var rest := Pairs(us[1..], types);
      assert forall k :: 0 <= k < |rest| ==> (row + rest)[|row| + k] == rest[k];
      row + rest
  }

  /** The patch list `simplify_brackets` hands to the patch applier. */
  function Patches(types: seq<seq<byte>>): seq<Patch> {
    var pairs := Pairs(types, types);
    seq(|pairs|, k requires 0 <= k < |pairs| => ZipMap(pairs[k].0, pairs[k].1))
  }

  /**
   * The comprehension in general: every patch relabels some kind into a smaller-sorting kind,
   * and every such ordered pair of kinds gives a patch.
   */
  lemma PatchesComprehension(types: seq<seq<byte>>)
    ensures forall k :: 0 <= k < |Patches(types)| ==>
              exists u, v :: u in types && v in types && LexLess(v, u) &&
                             Patches(types)[k] == ZipMap(u, v)
    ensures forall u, v :: u in types && v in types && LexLess(v, u) ==> ZipMap(u, v) in Patches(types)
  {
    var pairs := Pairs(types, types);
    var ps := Patches(types);
    assert |ps| == |pairs|;
    forall k | 0 <= k < |ps|
      ensures exists u, v :: u in types && v in types && LexLess(v, u) && ps[k] == ZipMap(u, v)
    {
      var u, v := pairs[k].0, pairs[k].1;
      assert u in types && v in types && LexLess(v, u) && ps[k] == ZipMap(u, v);
    }
    forall u, v | u in types && v in types && LexLess(v, u) ensures ZipMap(u, v) in ps {
      var k :| 0 <= k < |pairs| && pairs[k] == (u, v);
      assert ps[k] == ZipMap(u, v);
    }
  }

  /** Patch `k` is the zip of the `k`-th pair of kinds. */
  lemma PatchesAt(types: seq<seq<byte>>, k: nat)
    requires k < |Pairs(types, types)|
    ensures |Patches(types)| == |Pairs(types, types)|
    ensures Patches(types)[k] == ZipMap(Pairs(types, types)[k].0, Pairs(types, types)[k].1)
  {
  }

  /** The three patches for square, curly and round brackets. */
  lemma BracketPatches()
    ensures var ps := Patches(BracketTypes);
            |ps| == 3 && ps[0] == map[91 := 40, 93 := 41] && ps[1] == map[123 := 91, 125 := 93] &&
            ps[2] == map[123 := 40, 125 := 41]
  {
    var sq: seq<byte>, cu: seq<byte>, ro: seq<byte> := [91, 93], [123, 125], [40, 41];
    BracketPairs();
    PatchesAt(BracketTypes, 0);
    PatchesAt(BracketTypes, 1);
    PatchesAt(BracketTypes, 2);
    ZipPair(sq, ro);
    ZipPair(cu, sq);
    ZipPair(cu, ro);
  }

  /** The kind pairs `(u, v)` with `u > v`: square over round, curly over square and round. */
  lemma BracketPairs()
    ensures Pairs(BracketTypes, BracketTypes) ==
            [([91, 93], [40, 41]), ([123, 125], [91, 93]), ([123, 125], [40, 41])]
  {
    var sq: seq<byte>, cu: seq<byte>, ro: seq<byte> := [91, 93], [123, 125], [40, 41];
    assert BracketTypes == [sq, cu, ro];
    RowSquare();
    RowCurly();
    RowRound();
    assert Pairs([], BracketTypes) == [];
    assert Pairs([ro], BracketTypes) == [];
    assert Pairs([cu, ro], BracketTypes) == [(cu, sq), (cu, ro)];
  }

  lemma RowSquare()
    ensures Row([91, 93], BracketTypes) == [([91, 93], [40, 41])]
  {
    var sq: seq<byte>, cu: seq<byte>, ro: seq<byte> := [91, 93], [123, 125], [40, 41];
    assert BracketTypes == [sq, cu, ro];
    assert !LexLess(sq, sq) && !LexLess(cu, sq) && LexLess(ro, sq);
    assert Row(sq, []) == [];
    assert Row(sq, [ro]) == [(sq, ro)];
    assert Row(sq, [cu, ro]) == [(sq, ro)];
  }

  lemma RowCurly()
    ensures Row([123, 125], BracketTypes) == [([123, 125], [91, 93]), ([123, 125], [40, 41])]
  {
    var sq: seq<byte>, cu: seq<byte>, ro: seq<byte> := [91, 93], [123, 125], [40, 41];
    assert BracketTypes == [sq, cu, ro];
    assert LexLess(sq, cu) && !LexLess(cu, cu) && LexLess(ro, cu);
    assert Row(cu, []) == [];
    assert Row(cu, [ro]) == [(cu, ro)];
    assert Row(cu, [cu, ro]) == [(cu, ro)];
  }

  lemma RowRound()
    ensures Row([40, 41], BracketTypes) == []
  {
    var sq: seq<byte>, cu: seq<byte>, ro: seq<byte> := [91, 93], [123, 125], [40, 41];
    assert BracketTypes == [sq, cu, ro];
    assert !LexLess(sq, ro) && !LexLess(cu, ro) && !LexLess(ro, ro);
    assert Row(ro, []) == [];
    assert Row(ro, [ro]) == [];
    assert Row(ro, [cu, ro]) == [];
  }

  lemma ZipPair(u: seq<byte>, v: seq<byte>)
    requires |u| == 2 && |v| == 2 && u[0] != u[1]
    ensures ZipMap(u, v) == map[u[0] := v[0], u[1] := v[1]]
  {
    assert LastAt(u, 0, 2) && LastAt(u, 1, 2);
    assert ZipMap(u, v).Keys == {u[0], u[1]};
  }

  /** The opening and closing bytes of the three kinds. */
  predicate Opens(b: byte) {
    b == 91 || b == 123 || b == 40
  }

  predicate Closes(b: byte) {
    b == 93 || b == 125 || b == 41
  }

  /** Applying `p` only lowers bytes, and keeps an opening bracket opening and a closing one closing. */
  predicate Lowers(p: Patch) {
    forall b :: b in p ==> p[b] < b && ((Opens(b) && Opens(p[b])) || (Closes(b) && Closes(p[b])))
  }

  /** Every patch `simplify_brackets` tries lowers the brackets it rewrites, keeping their side. */
  lemma PatchesShrinkBrackets()
    ensures var ps := Patches(BracketTypes);
            |ps| == 3 && Lowers(ps[0]) && Lowers(ps[1]) && Lowers(ps[2])
  {
    var ps := Patches(BracketTypes);
    BracketPatches();
    TableLowers(ps[0], ps[1], ps[2]);
  }

  lemma TableLowers(p0: Patch, p1: Patch, p2: Patch)
    requires p0 == map[91 := 40, 93 := 41] && p1 == map[123 := 91, 125 := 93]
    requires p2 == map[123 := 40, 125 := 41]
    ensures Lowers(p0) && Lowers(p1) && Lowers(p2)
  {
    assert forall b :: b in p0 ==> b == 91 || b == 93;
    assert forall b :: b in p1 ==> b == 123 || b == 125;
    assert forall b :: b in p2 ==> b == 123 || b == 125;
  }
}
