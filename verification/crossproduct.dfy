/**
 * The cross product that both revisions of `append_perm` build: every
 * partial combination extended by every candidate, in row-major order
 * (all extensions of the first combination, then of the second, ...).
 */
module CrossProduct {

  /** `r` extended by each item, in item order. */
  function Row<T>(r: seq<T>, items: seq<T>): seq<seq<T>>
  {
    seq(|items|, k requires 0 <= k < |items| => r + [items[k]])
  }

  /** Every row of `rs` extended by every item, row-major. */
  function Extend<T>(rs: seq<seq<T>>, items: seq<T>): seq<seq<T>>
  {
    if rs == [] then [] else Extend(rs[..|rs| - 1], items) + Row(rs[|rs| - 1], items)
  }

  lemma {:induction false} ExtendSize<T>(rs: seq<seq<T>>, items: seq<T>)
    ensures |Extend(rs, items)| == |rs| * |items|
  {
    if rs != [] {
      ExtendSize(rs[..|rs| - 1], items);
      assert (|rs| - 1) * |items| + |items| == |rs| * |items|;
    }
  }

  /** Row-major order: position i * |items| + j holds row i extended by item j. */
  lemma {:induction false} ExtendAt<T>(rs: seq<seq<T>>, items: seq<T>, i: int, j: int)
    requires 0 <= i < |rs| && 0 <= j < |items|
    ensures i * |items| + j < |Extend(rs, items)|
    ensures Extend(rs, items)[i * |items| + j] == rs[i] + [items[j]]
  {
    var init := rs[..|rs| - 1];
    ExtendSize(init, items);
    if i < |rs| - 1 {
      ExtendAt(init, items, i, j);
    } else {
      assert i * |items| == |Extend(init, items)|;
    }
  }

  /** The extended rows are exactly the pairs (row, item). */
  lemma {:induction false} ExtendMembers<T>(rs: seq<seq<T>>, items: seq<T>, x: seq<T>)
    ensures x in Extend(rs, items) <==>
              exists i, j :: 0 <= i < |rs| && 0 <= j < |items| && x == rs[i] + [items[j]]
  {
    if rs != [] {
      var init := rs[..|rs| - 1];
      ExtendMembers(init, items, x);
      var last := Row(rs[|rs| - 1], items);
      if x in last {
        var j :| 0 <= j < |items| && last[j] == x;
        assert x == rs[|rs| - 1] + [items[j]];
      }
      if exists i, j :: 0 <= i < |rs| && 0 <= j < |items| && x == rs[i] + [items[j]] {
        var i, j :| 0 <= i < |rs| && 0 <= j < |items| && x == rs[i] + [items[j]];
        if i < |rs| - 1 {
          assert x == init[i] + [items[j]];
        } else {
          assert last[j] == x;
        }
      }
    }
  }

  lemma ExtendNoItems<T>(rs: seq<seq<T>>)
    ensures Extend(rs, []) == []
  {
    ExtendSize(rs, []);
  }

  /** The full cross product of the candidate lists; the empty product has one empty combination. */
  function Product<T>(cands: seq<seq<T>>): seq<seq<T>>
  {
    if cands == [] then [[]] else Extend(Product(cands[..|cands| - 1]), cands[|cands| - 1])
  }

  /** The product of the candidate counts. */
  function Count<T>(cands: seq<seq<T>>): nat
  {
    if cands == [] then 1 else Count(cands[..|cands| - 1]) * |cands[|cands| - 1]|
  }

  lemma {:induction false} ProductSize<T>(cands: seq<seq<T>>)
    ensures |Product(cands)| == Count(cands)
  {
    if cands != [] {
      ProductSize(cands[..|cands| - 1]);
      ExtendSize(Product(cands[..|cands| - 1]), cands[|cands| - 1]);
    }
  }

  /** The count is zero exactly when some course has no candidate. */
  lemma {:induction false} CountZero<T>(cands: seq<seq<T>>)
    ensures Count(cands) == 0 <==> exists i :: 0 <= i < |cands| && cands[i] == []
  {
    if cands != [] {
      var init := cands[..|cands| - 1];
      CountZero(init);
      if exists i :: 0 <= i < |init| && init[i] == [] {
        var i :| 0 <= i < |init| && init[i] == [];
        assert cands[i] == [];
      }
      if exists i :: 0 <= i < |cands| && cands[i] == [] {
        var i :| 0 <= i < |cands| && cands[i] == [];
        if i < |cands| - 1 {
          assert init[i] == [];
        }
      }
    }
  }

  /** A combination picks, at each position, one candidate of that position's list. */
  ghost predicate Picks<T>(cands: seq<seq<T>>, c: seq<T>)
  {
    |c| == |cands| && forall i :: 0 <= i < |c| ==> c[i] in cands[i]
  }

  lemma {:induction false} ProductPicks<T>(cands: seq<seq<T>>, c: seq<T>)
    requires c in Product(cands)
    ensures Picks(cands, c)
  {
    if cands != [] {
      var n := |cands|;
      var init, last := cands[..n - 1], cands[n - 1];
      var prev := Product(init);
      ExtendMembers(prev, last, c);
      var i, j :| 0 <= i < |prev| && 0 <= j < |last| && c == prev[i] + [last[j]];
      ProductPicks(init, prev[i]);
      forall k | 0 <= k < |c| ensures c[k] in cands[k] {
        if k < n - 1 {
          assert c[k] == prev[i][k];
        }
      }
    }
  }

  lemma {:induction false} PicksInProduct<T>(cands: seq<seq<T>>, c: seq<T>)
    requires Picks(cands, c)
    ensures c in Product(cands)
  {
    if cands != [] {
      var n := |cands|;
      var init, last := cands[..n - 1], cands[n - 1];
      var prev := Product(init);
      var p := c[..n - 1];
      assert Picks(init, p) by {
        forall k | 0 <= k < |p| ensures p[k] in init[k] {
          assert p[k] == c[k];
        }
      }
      PicksInProduct(init, p);
      var i :| 0 <= i < |prev| && prev[i] == p;
      var j :| 0 <= j < |last| && last[j] == c[n - 1];
      assert c == prev[i] + [last[j]];
      ExtendMembers(prev, last, c);
    }
  }

  /** The product holds exactly the combinations that pick one candidate per position. */
  lemma ProductMembers<T>(cands: seq<seq<T>>, c: seq<T>)
    ensures c in Product(cands) <==> Picks(cands, c)
  {
    if c in Product(cands) {
      ProductPicks(cands, c);
    }
    if Picks(cands, c) {
      PicksInProduct(cands, c);
    }
  }
}
