/**
  Draw-order surgery (main.py, lines 36, 65 and 74-78).

  The draw order is a list of tile indices painted first to last, so the
  last entry is on top. The source changes it only with
  `draw_order.append(draw_order.pop(draw_order.index(i)))`, which raises
  tile `i` to the top. On a snap it does so inside a `for` loop over the
  very list it changes; Python's list iterator walks by position, so the
  entry that slides into the popped position is never visited.
 */
module DrawOrder {
  import opened Permutations

  /** `list.index(v)`: the first position holding `v`. */
  function IndexOf(s: seq<nat>, v: nat): (r: nat)
    requires v in s
    ensures r < |s| && s[r] == v
    ensures forall k :: 0 <= k < r ==> s[k] != v
  {
    if s[0] == v then 0 else 1 + IndexOf(s[1..], v)
  }

  /** In a list without repetitions, the first position of `s[k]` is `k`. */
  lemma IndexOfDistinct(s: seq<nat>, k: nat)
    requires Distinct(s) && k < |s|
    ensures IndexOf(s, s[k]) == k
  {
  }

  /**
    `s.append(s.pop(k))`: the entries below position `k` stay, the ones
    above it slide down one place, and the entry from position `k` ends on
    top. The contents are unchanged.
   */
  function MoveToTop(s: seq<nat>, k: nat): (r: seq<nat>)
    requires k < |s|
    ensures |r| == |s| && r[|r| - 1] == s[k]
    ensures forall i :: 0 <= i < k ==> r[i] == s[i]
    ensures forall i :: k <= i < |s| - 1 ==> r[i] == s[i + 1]
    ensures multiset(r) == multiset(s)
  {
    assert s == s[..k] + [s[k]] + s[k + 1..];
    s[..k] + s[k + 1..] + [s[k]]
  }

  /** The entries of `s` that are not in `w`, in their order in `s`. */
  function Without(s: seq<nat>, w: set<nat>): (r: seq<nat>)
    ensures forall x :: x in r <==> x in s && x !in w
  {
    if s == [] then []
    else if s[0] in w then Without(s[1..], w)
    else [s[0]] + Without(s[1..], w)
  }

  /** The entries of `s` that are in `w`, in their order in `s`. */
  function Only(s: seq<nat>, w: set<nat>): (r: seq<nat>)
    ensures forall x :: x in r <==> x in s && x in w
  {
    if s == [] then []
    else if s[0] in w then [s[0]] + Only(s[1..], w)
    else Only(s[1..], w)
  }

  lemma {:induction false} WithoutConcat(a: seq<nat>, b: seq<nat>, w: set<nat>)
    ensures Without(a + b, w) == Without(a, w) + Without(b, w)
  {
    if a != [] {
      assert (a + b)[1..] == a[1..] + b;
      WithoutConcat(a[1..], b, w);
    } else {
      assert a + b == b;
    }
  }

  /** Raising an entry of `w` to the top does not disturb the other entries' order. */
  lemma MoveToTopKeepsOthers(s: seq<nat>, k: nat, w: set<nat>)
    requires k < |s| && s[k] in w
    ensures Without(MoveToTop(s, k), w) == Without(s, w)
  {
    assert s == s[..k] + ([s[k]] + s[k + 1..]);
    WithoutConcat(s[..k], [s[k]] + s[k + 1..], w);
    WithoutConcat([s[k]], s[k + 1..], w);
    WithoutConcat(s[..k] + s[k + 1..], [s[k]], w);
    WithoutConcat(s[..k], s[k + 1..], w);
  }

  /**
    The reorder loop of a snap from position `i` on, as written: at each
    position, if the entry there is in `w` (an unplaced tile other than the
    one just snapped, lying exactly on the snapped tile's correct position)
    it is popped from its first occurrence and appended, and the walk goes
    on at the next position of the changed list.
   */
  function PromoteFrom(s: seq<nat>, w: set<nat>, i: nat): (r: seq<nat>)
    requires i <= |s|
    ensures |r| == |s| && multiset(r) == multiset(s)
    ensures Without(r, w) == Without(s, w)
    ensures (forall k :: i <= k < |s| ==> s[k] !in w) ==> r == s
    decreases |s| - i
  {
    if i == |s| then s
    else if s[i] in w then
      var k := IndexOf(s, s[i]);
      MoveToTopKeepsOthers(s, k, w);
      PromoteFrom(MoveToTop(s, k), w, i + 1)
    else
      PromoteFrom(s, w, i + 1)
  }

  /** One position of the walk: the list it continues with. */
  lemma PromoteFromStep(s: seq<nat>, w: set<nat>, i: nat)
    requires i < |s|
    ensures s[i] in w ==> PromoteFrom(s, w, i) == PromoteFrom(MoveToTop(s, IndexOf(s, s[i])), w, i + 1)
    ensures s[i] !in w ==> PromoteFrom(s, w, i) == PromoteFrom(s, w, i + 1)
  {
  }

  /** The top entry of `s` is in `w`. */
  predicate TopIn(s: seq<nat>, w: set<nat>) {
    |s| > 0 && s[|s| - 1] in w
  }

  /** Raising a waiting tile puts a waiting tile on top. */
  lemma RaisedIsTop(s: seq<nat>, w: set<nat>, i: nat)
    requires i < |s| && s[i] in w
    ensures TopIn(MoveToTop(s, IndexOf(s, s[i])), w)
  {
  }

  /** Once the top entry is a waiting tile, the rest of the walk keeps a waiting tile on top. */
  lemma {:induction false} PromoteFromKeepsTop(s: seq<nat>, w: set<nat>, i: nat)
    requires i <= |s| && TopIn(s, w)
    ensures TopIn(PromoteFrom(s, w, i), w)
    decreases |s| - i
  {
    if i < |s| {
      PromoteFromStep(s, w, i);
      if s[i] in w {
        RaisedIsTop(s, w, i);
        PromoteFromKeepsTop(MoveToTop(s, IndexOf(s, s[i])), w, i + 1);
      } else {
        PromoteFromKeepsTop(s, w, i + 1);
      }
    }
  }

  /** A waiting tile at position `i` is raised, so a waiting tile ends on top. */
  lemma PromoteFromRaises(s: seq<nat>, w: set<nat>, i: nat)
    requires i < |s| && s[i] in w
    ensures TopIn(PromoteFrom(s, w, i), w)
  {
    PromoteFromStep(s, w, i);
    RaisedIsTop(s, w, i);
    PromoteFromKeepsTop(MoveToTop(s, IndexOf(s, s[i])), w, i + 1);
  }

  /** A waiting tile at or after position `i` puts some waiting tile on top. */
  lemma {:induction false} PromoteFromTop(s: seq<nat>, w: set<nat>, i: nat, k: nat)
    requires i <= k < |s| && s[k] in w
    ensures TopIn(PromoteFrom(s, w, i), w)
    decreases |s| - i
  {
    if s[i] in w {
      PromoteFromRaises(s, w, i);
    } else {
      assert i < k;
      PromoteFromTop(s, w, i + 1, k);
      PromoteFromStep(s, w, i);
    }
  }

  /**
    `for j in draw_order: ... draw_order.append(draw_order.pop(draw_order.index(j)))`
    over a snap's waiting tiles `w`. The result is a rearrangement of the
    draw order; tiles outside `w` keep their relative order; if any tile of
    `w` is in the list, one of them ends on top; and with no tile of `w`
    the list is unchanged.
   */
  function Promote(s: seq<nat>, w: set<nat>): (r: seq<nat>)
    ensures multiset(r) == multiset(s)
    ensures Without(r, w) == Without(s, w)
    ensures (forall k :: 0 <= k < |s| ==> s[k] !in w) ==> r == s
    ensures forall k :: 0 <= k < |s| && s[k] in w ==> TopIn(r, w)
  {
    forall k | 0 <= k < |s| && s[k] in w
      ensures TopIn(PromoteFrom(s, w, 0), w)
    {
      PromoteFromTop(s, w, 0, k);
    }
    PromoteFrom(s, w, 0)
  }

  /**
    The loop as written skips the entry that slides into a popped
    position: with tiles 0 and 1 waiting at the snapped position, tile 1
    ends up below tile 2, which is not waiting.
   */
  lemma PromoteSkipsNeighbour()
    ensures Promote([0, 1, 2], {0, 1}) == [1, 2, 0]
  {
    SkipFirstStep();
    SkipLastSteps();
  }

  /** Position 0 holds waiting tile 0, which is raised: `[0, 1, 2]` becomes `[1, 2, 0]`. */
  lemma SkipFirstStep()
    ensures PromoteFrom([0, 1, 2], {0, 1}, 0) == PromoteFrom([1, 2, 0], {0, 1}, 1)
  {
    var s0: seq<nat> := [0, 1, 2];
    assert IndexOf(s0, 0) == 0;
    assert MoveToTop(s0, 0) == [1, 2, 0];
    PromoteFromStep(s0, {0, 1}, 0);
  }

  /**
    Tile 1 has slid to position 0, which the walk has passed. Position 1
    holds tile 2, which is not waiting; position 2 holds tile 0, which is
    raised onto the top it already holds.
   */
  lemma SkipLastSteps()
    ensures PromoteFrom([1, 2, 0], {0, 1}, 1) == [1, 2, 0]
  {
    var s1: seq<nat> := [1, 2, 0];
    PromoteFromStep(s1, {0, 1}, 1);
    PromoteFromStep(s1, {0, 1}, 2);
    RaiseTopIsNoop();
  }

  /** Raising the entry already on top leaves `[1, 2, 0]` as it is. */
  lemma RaiseTopIsNoop()
    ensures MoveToTop([1, 2, 0], IndexOf([1, 2, 0], 0)) == [1, 2, 0]
  {
    var s1: seq<nat> := [1, 2, 0];
    assert IndexOf(s1, 0) == 2 by {
      assert IndexOf(s1[1..], 0) == 1 by {
        assert s1[1..][1..] == [0];
      }
    }
  }

  lemma {:induction false} SplitIsPermutation(s: seq<nat>, w: set<nat>)
    ensures multiset(Without(s, w)) + multiset(Only(s, w)) == multiset(s)
  {
    if s != [] {
      SplitIsPermutation(s[1..], w);
      assert s == [s[0]] + s[1..];
    }
  }

  /**
    The reorder the loop evidently aims at, as iterating over a copy of the
    list would give: every waiting tile is raised above every other tile,
    each group keeping its relative order.
   */
  function PromoteAll(s: seq<nat>, w: set<nat>): (r: seq<nat>)
    ensures multiset(r) == multiset(s)
    ensures Without(r, w) == Without(s, w)
    ensures Only(r, w) == Only(s, w)
    ensures forall i, j :: 0 <= i < j < |r| && r[i] in w ==> r[j] in w
  {
    SplitIsPermutation(s, w);
    WithoutConcat(Without(s, w), Only(s, w), w);
    WithoutOnly(s, w);
    OnlyConcat(Without(s, w), Only(s, w), w);
    Without(s, w) + Only(s, w)
  }

  lemma {:induction false} WithoutOnly(s: seq<nat>, w: set<nat>)
    ensures Without(Without(s, w), w) == Without(s, w)
    ensures Without(Only(s, w), w) == []
    ensures Only(Without(s, w), w) == []
    ensures Only(Only(s, w), w) == Only(s, w)
  {
    if s != [] {
      WithoutOnly(s[1..], w);
    }
  }

  lemma {:induction false} OnlyConcat(a: seq<nat>, b: seq<nat>, w: set<nat>)
    ensures Only(a + b, w) == Only(a, w) + Only(b, w)
  {
    if a != [] {
      assert (a + b)[1..] == a[1..] + b;
      OnlyConcat(a[1..], b, w);
    } else {
      assert a + b == b;
    }
  }

  /** The loop as written and the intended reorder differ on the example above. */
  lemma PromoteDiffersFromIntended()
    ensures Promote([0, 1, 2], {0, 1}) != PromoteAll([0, 1, 2], {0, 1})
  {
    PromoteSkipsNeighbour();
    var r: seq<nat> := [1, 2, 0];
    assert r[0] in {0, 1} && r[1] !in {0, 1};
  }
}
