/** The ordered list merger (`mergeStatementBy`): inserts new items into a copy of
    an old list wherever a caller-supplied predicate says so, and appends the rest. */
module Merger {
  import opened Wrappers
  import opened Seqs

  /** The item before position `i`, absent at the front (`o[i - 1]` is `undefined`). */
  function Previous<T>(o: seq<T>, i: nat): Option<T>
    requires i <= |o|
  {
    if i == 0 then None else Some(o[i - 1])
  }

  /** A predicate that accepts no insertion at all. */
  ghost predicate NeverInserts<T(!new)>(shouldInsert: (Option<T>, T, T, nat) -> bool) {
    forall p, c, x, i :: !shouldInsert(p, c, x, i)
  }

  /** A predicate that accepts every insertion. */
  ghost predicate AlwaysInserts<T(!new)>(shouldInsert: (Option<T>, T, T, nat) -> bool) {
    forall p, c, x, i :: shouldInsert(p, c, x, i)
  }

  /** The items in reverse order. */
  function Reverse<T>(s: seq<T>): (r: seq<T>)
    ensures |r| == |s|
  {
    if s == [] then [] else Reverse(s[1..]) + [s[0]]
  }

  /** The inner loop at old position `i`, as a recursive definition: the pending
      items from `j` on are asked about in turn against the item now at `i`; an accepted
      item moves in front of position `i` and leaves the pending items, and testing
      goes on with the item that took its place. Yields the list and the items
      still pending. */
  function PlaceFrom<T>(o: seq<T>, n: seq<T>, i: nat, j: nat, shouldInsert: (Option<T>, T, T, nat) -> bool)
    : (r: (seq<T>, seq<T>))
    requires i < |o| && j <= |n|
    ensures |r.0| + |r.1| == |o| + |n|
    ensures |o| <= |r.0|
    decreases |n| - j
  {
    if j == |n| then (o, n)
    else if shouldInsert(Previous(o, i), o[i], n[j], i) then
      PlaceFrom(o[..i] + [n[j]] + o[i..], n[..j] + n[j + 1..], i, j, shouldInsert)
    else PlaceFrom(o, n, i, j + 1, shouldInsert)
  }

  /** The outer loop from old position `i` on, as a recursive definition: each
      position gets its inner pass, and the loop stops once nothing is pending or
      the last position is done. Yields the list and the items still pending. */
  function MergeState<T>(o: seq<T>, n: seq<T>, i: nat, shouldInsert: (Option<T>, T, T, nat) -> bool)
    : (seq<T>, seq<T>)
    requires i <= |o|
    decreases |o| + |n| - i
  {
    if i == |o| then (o, n)
    else
      var (o', n') := PlaceFrom(o, n, i, 0, shouldInsert);
      if n' == [] then (o', n') else MergeState(o', n', i + 1, shouldInsert)
  }

  /** One outer step: after the inner pass at `i`, the loop stops when nothing is
      pending and goes on at `i + 1` otherwise. */
  lemma MergeStateStep<T>(o: seq<T>, n: seq<T>, i: nat, o': seq<T>, n': seq<T>,
                          shouldInsert: (Option<T>, T, T, nat) -> bool)
    requires i < |o|
    requires (o', n') == PlaceFrom(o, n, i, 0, shouldInsert)
    ensures n' == [] ==> MergeState(o, n, i, shouldInsert) == (o', n')
    ensures n' != [] ==> i + 1 <= |o'| && MergeState(o, n, i, shouldInsert) == MergeState(o', n', i + 1, shouldInsert)
  {
  }

  /** The merge as a recursive definition: the list the loops end with, followed by
      the items still pending (`[...o, ...n]`, which is `o` when none are). */
  function MergeRef<T>(oldItems: seq<T>, newItems: seq<T>, shouldInsert: (Option<T>, T, T, nat) -> bool): seq<T> {
    var (o, n) := MergeState(oldItems, newItems, 0, shouldInsert);
    o + n
  }

  /** When every insertion is accepted, the inner pass at `i` moves all pending
      items in front of position `i`, the last one asked about ending up first. */
  lemma {:induction false} PlaceFromAlways<T(!new)>(o: seq<T>, n: seq<T>, i: nat,
                                                     shouldInsert: (Option<T>, T, T, nat) -> bool)
    requires i < |o|
    requires AlwaysInserts(shouldInsert)
    ensures PlaceFrom(o, n, i, 0, shouldInsert) == (o[..i] + Reverse(n) + o[i..], [])
    decreases |n|
  {
    if n != [] {
      var o1, n1 := o[..i] + [n[0]] + o[i..], n[1..];
      assert n[..0] + n[1..] == n1;
      assert shouldInsert(Previous(o, i), o[i], n[0], i);
      assert PlaceFrom(o, n, i, 0, shouldInsert) == PlaceFrom(o1, n1, i, 0, shouldInsert);
      PlaceFromAlways(o1, n1, i, shouldInsert);
      assert o1[..i] == o[..i];
      assert o1[i..] == [n[0]] + o[i..];
      assert Reverse(n) == Reverse(n1) + [n[0]];
      assert o1[..i] + Reverse(n1) + o1[i..] == o[..i] + Reverse(n) + o[i..];
    } else {
      assert o[..i] + Reverse(n) + o[i..] == o;
    }
  }

  /** When every insertion is accepted and the old list is not empty, all new items
      go in front of the first old item, in reverse order. */
  lemma MergeRefAlwaysInserts<T(!new)>(oldItems: seq<T>, newItems: seq<T>, shouldInsert: (Option<T>, T, T, nat) -> bool)
    requires AlwaysInserts(shouldInsert)
    requires oldItems != []
    ensures MergeRef(oldItems, newItems, shouldInsert) == Reverse(newItems) + oldItems
  {
    PlaceFromAlways(oldItems, newItems, 0, shouldInsert);
    assert oldItems[..0] + Reverse(newItems) + oldItems[0..] == Reverse(newItems) + oldItems;
    assert MergeState(oldItems, newItems, 0, shouldInsert) == (Reverse(newItems) + oldItems, []);
    assert Reverse(newItems) + oldItems + [] == Reverse(newItems) + oldItems;
  }

  /** `mergeStatementBy(oldArray, newArray, predicate)`. `shouldInsert(previous,
      current, candidate, position)` decides whether `candidate` goes right before
      `current`. After an insertion the same position is asked again, now with the
      inserted item as `current`. `leftover` holds the items no position took; they
      end the result in their original order. */
  method MergeBy<T(!new)>(oldItems: seq<T>, newItems: seq<T>, shouldInsert: (Option<T>, T, T, nat) -> bool)
    returns (merged: seq<T>, ghost leftover: seq<T>)
    ensures |merged| == |oldItems| + |newItems|
    ensures multiset(merged) == multiset(oldItems) + multiset(newItems)
    ensures IsSubsequence(oldItems, merged)
    ensures IsSubsequence(leftover, newItems)
    ensures |leftover| <= |newItems|
    ensures |leftover| <= |merged| && merged[|merged| - |leftover|..] == leftover
    ensures oldItems != [] && leftover != [] ==>
              var last := |merged| - |leftover| - 1;
              forall x :: x in leftover ==> !shouldInsert(Previous(merged, last), merged[last], x, last)
    ensures oldItems == [] ==> merged == newItems
    ensures newItems == [] ==> merged == oldItems
    ensures NeverInserts(shouldInsert) ==> merged == oldItems + newItems
    ensures AlwaysInserts(shouldInsert) && oldItems != [] ==> merged == Reverse(newItems) + oldItems
    ensures merged == MergeRef(oldItems, newItems, shouldInsert)
    ensures leftover == MergeState(oldItems, newItems, 0, shouldInsert).1
  {
    var o, n := MergeLoop(oldItems, newItems, shouldInsert);
    MergingDone(oldItems, newItems, o, n, shouldInsert);
    merged, leftover := o + n, n;
  }

  /** The two nested loops of the merge; `o + n` is the result. */
  method MergeLoop<T(!new)>(oldItems: seq<T>, newItems: seq<T>, shouldInsert: (Option<T>, T, T, nat) -> bool)
    returns (o: seq<T>, n: seq<T>)
    ensures Merging(oldItems, newItems, o, n, |o|, shouldInsert)
    ensures (o, n) == MergeState(oldItems, newItems, 0, shouldInsert)
  {
    o, n := oldItems, newItems;
    SubsequenceRefl(oldItems);
    SubsequenceRefl(newItems);
    var i := 0;
    while i < |o|
      invariant Merging(oldItems, newItems, o, n, i, shouldInsert)
      decreases |o| + |n| - i
    {
      var o', n', inserted := PlaceAt(oldItems, newItems, o, n, i, shouldInsert);
      MergingStep(oldItems, newItems, o, n, i, o', n', inserted, shouldInsert);
      o, n := o', n';
      if |n| == 0 {
        break;
      }
      i := i + 1;
    }
  }

  /** What the result `o + n` inherits from the state the outer loop ends in. */
  lemma MergingDone<T(!new)>(oldItems: seq<T>, newItems: seq<T>, o: seq<T>, n: seq<T>,
                             shouldInsert: (Option<T>, T, T, nat) -> bool)
    requires Merging(oldItems, newItems, o, n, |o|, shouldInsert)
    ensures |o + n| == |oldItems| + |newItems|
    ensures multiset(o + n) == multiset(oldItems) + multiset(newItems)
    ensures IsSubsequence(oldItems, o + n)
    ensures IsSubsequence(n, newItems)
    ensures |n| <= |newItems|
    ensures |n| <= |o + n| && (o + n)[|o + n| - |n|..] == n
    ensures oldItems != [] && n != [] ==>
              var last := |o + n| - |n| - 1;
              forall x :: x in n ==> !shouldInsert(Previous(o + n, last), (o + n)[last], x, last)
    ensures oldItems == [] ==> o + n == newItems
    ensures newItems == [] ==> o + n == oldItems
    ensures NeverInserts(shouldInsert) ==> o + n == oldItems + newItems
    ensures AlwaysInserts(shouldInsert) && oldItems != [] ==> o + n == Reverse(newItems) + oldItems
    ensures o + n == MergeRef(oldItems, newItems, shouldInsert)
    ensures (o, n) == MergeState(oldItems, newItems, 0, shouldInsert)
  {
    MergeFinish(oldItems, o, n, shouldInsert);
    if AlwaysInserts(shouldInsert) && oldItems != [] {
      MergeRefAlwaysInserts(oldItems, newItems, shouldInsert);
    }
    assert newItems == [] ==> o + n == o;
    assert oldItems == [] ==> o + n == n;
  }

  /** The state of the outer loop before old position `i`: the items, the old
      items' order and the pending items' order are kept, every pending item was
      rejected at the last position once the end is reached, and the rest of the
      merge is the rest of the reference definition. */
  ghost predicate Merging<T(!new)>(oldItems: seq<T>, newItems: seq<T>, o: seq<T>, n: seq<T>, i: nat,
                                   shouldInsert: (Option<T>, T, T, nat) -> bool) {
    && i <= |o|
    && |o| + |n| == |oldItems| + |newItems|
    && multiset(o) + multiset(n) == multiset(oldItems) + multiset(newItems)
    && IsSubsequence(oldItems, o)
    && IsSubsequence(n, newItems)
    && |n| <= |newItems|
    && (0 < i == |o| ==> forall x :: x in n ==> !shouldInsert(Previous(o, i - 1), o[i - 1], x, i - 1))
    && (oldItems != [] ==> o != [])
    && (oldItems == [] ==> o == [] && n == newItems)
    && (newItems == [] ==> o == oldItems && n == [])
    && (NeverInserts(shouldInsert) ==> o == oldItems && n == newItems)
    && MergeState(o, n, i, shouldInsert) == MergeState(oldItems, newItems, 0, shouldInsert)
  }

  /** An inner pass at `i` moves the outer loop on to `i + 1`, or to the end when
      nothing is left pending. */
  lemma MergingStep<T(!new)>(oldItems: seq<T>, newItems: seq<T>, o: seq<T>, n: seq<T>, i: nat,
                             o': seq<T>, n': seq<T>, inserted: bool, shouldInsert: (Option<T>, T, T, nat) -> bool)
    requires Merging(oldItems, newItems, o, n, i, shouldInsert) && i < |o|
    requires |o'| + |n'| == |o| + |n|
    requires multiset(o') + multiset(n') == multiset(o) + multiset(n)
    requires IsSubsequence(oldItems, o') && IsSubsequence(n', newItems)
    requires |n'| <= |n|
    requires inserted ==> i + 1 < |o'|
    requires !inserted ==> o' == o && n' == n
    requires !inserted ==> forall x :: x in n ==> !shouldInsert(Previous(o, i), o[i], x, i)
    requires NeverInserts(shouldInsert) ==> !inserted
    requires (o', n') == PlaceFrom(o, n, i, 0, shouldInsert)
    ensures Merging(oldItems, newItems, o', n', if n' == [] then |o'| else i + 1, shouldInsert)
  {
    MergeStateStep(o, n, i, o', n', shouldInsert);
  }

  /** What the result `o + n` inherits from the state the outer loop ends in. */
  lemma MergeFinish<T>(oldItems: seq<T>, o: seq<T>, n: seq<T>, shouldInsert: (Option<T>, T, T, nat) -> bool)
    requires IsSubsequence(oldItems, o)
    requires o != [] && n != [] ==> forall x :: x in n ==> !shouldInsert(Previous(o, |o| - 1), o[|o| - 1], x, |o| - 1)
    ensures IsSubsequence(oldItems, o + n)
    ensures (o + n)[|o + n| - |n|..] == n
    ensures o != [] && n != [] ==>
              var last := |o + n| - |n| - 1;
              forall x :: x in n ==> !shouldInsert(Previous(o + n, last), (o + n)[last], x, last)
  {
    var merged := o + n;
    assert merged[|merged| - |n|..] == n;
    if o != [] && n != [] {
      assert |merged| - |n| - 1 == |o| - 1;
      assert merged[|o| - 1] == o[|o| - 1];
      assert Previous(merged, |o| - 1) == Previous(o, |o| - 1);
    }
    MergedKeepsOld(oldItems, o, n);
  }

  /** One pass of the inner loop at old position `i`: every pending item the
      predicate accepts is moved in front of position `i`, each test seeing the
      item currently there. When nothing moves, every pending item was rejected
      at `i`. */
  method PlaceAt<T(!new)>(ghost oldItems: seq<T>, ghost newItems: seq<T>, o: seq<T>, n: seq<T>, i: nat,
                    shouldInsert: (Option<T>, T, T, nat) -> bool)
    returns (o': seq<T>, n': seq<T>, inserted: bool)
    requires i < |o|
    requires IsSubsequence(oldItems, o) && IsSubsequence(n, newItems)
    ensures |o'| + |n'| == |o| + |n|
    ensures multiset(o') + multiset(n') == multiset(o) + multiset(n)
    ensures IsSubsequence(oldItems, o') && IsSubsequence(n', newItems)
    ensures |n'| <= |n|
    ensures inserted ==> i + 1 < |o'|
    ensures !inserted ==> o' == o && n' == n
    ensures !inserted ==> forall x :: x in n ==> !shouldInsert(Previous(o, i), o[i], x, i)
    ensures n == [] ==> !inserted
    ensures NeverInserts(shouldInsert) ==> !inserted
    ensures inserted <==> exists k :: 0 <= k < |n| && shouldInsert(Previous(o, i), o[i], n[k], i)
    ensures o'[..i] == o[..i] && o'[|o'| - (|o| - i)..] == o[i..]
    ensures (o', n') == PlaceFrom(o, n, i, 0, shouldInsert)
  {
    o', n', inserted := o, n, false;
    ghost var moved: seq<T> := [];
    ghost var accepted := 0;
    var j := 0;
    assert o == o[..i] + moved + o[i..];
    SubsequenceRefl(o);
    while j < |n'|
      invariant Kept(oldItems, newItems, o, n, i, o', n', moved)
      invariant Asked(o, n, i, o', n', j, inserted, accepted, shouldInsert)
      decreases |n'| - j
    {
      if shouldInsert(Previous(o', i), o'[i], n'[j], i) {
        KeptInsert(oldItems, newItems, o, n, i, o', n', moved, j);
        AskedAccept(o, n, i, o', n', j, inserted, accepted, shouldInsert);
        if !inserted {
          accepted := j;
        }
        moved := [n'[j]] + moved;
        o', n' := o'[..i] + [n'[j]] + o'[i..], n'[..j] + n'[j + 1..];
        inserted := true;
      } else {
        AskedReject(o, n, i, o', n', j, inserted, accepted, shouldInsert);
        j := j + 1;
      }
    }
    PlaceDone(oldItems, newItems, o, n, i, o', n', j, moved, inserted, accepted, shouldInsert);
  }

  /** What the inner pass keeps of its input: the items, the old items' order, the
      pending items' order, and the old list around the items moved in front of
      position `i`. */
  ghost predicate Kept<T>(oldItems: seq<T>, newItems: seq<T>, o: seq<T>, n: seq<T>, i: nat,
                          o': seq<T>, n': seq<T>, moved: seq<T>) {
    && i < |o|
    && |n'| <= |n|
    && |o'| + |n'| == |o| + |n|
    && multiset(o') + multiset(n') == multiset(o) + multiset(n)
    && IsSubsequence(oldItems, o') && IsSubsequence(n', newItems)
    && o' == o[..i] + moved + o[i..]
  }

  lemma KeptInsert<T>(oldItems: seq<T>, newItems: seq<T>, o: seq<T>, n: seq<T>, i: nat,
                      o': seq<T>, n': seq<T>, moved: seq<T>, j: nat)
    requires Kept(oldItems, newItems, o, n, i, o', n', moved)
    requires j < |n'|
    ensures Kept(oldItems, newItems, o, n, i, o'[..i] + [n'[j]] + o'[i..], n'[..j] + n'[j + 1..], [n'[j]] + moved)
  {
    MoveFacts(oldItems, newItems, o', n', i, j);
    MoveKeepsEnds(o, moved, o', i, n'[j]);
  }

  /** What the inner pass knows of its tests: before the first acceptance nothing
      has changed and every item asked about was rejected; after it, the accepted item is
      known; and the rest of the pass is the rest of the reference definition. */
  ghost predicate Asked<T(!new)>(o: seq<T>, n: seq<T>, i: nat, o': seq<T>, n': seq<T>, j: nat,
                                  inserted: bool, accepted: nat, shouldInsert: (Option<T>, T, T, nat) -> bool)
    requires i < |o|
  {
    && j <= |n'|
    && i < |o'|
    && (inserted ==> i + 1 < |o'|)
    && (n == [] ==> !inserted)
    && (!inserted ==> o' == o && n' == n)
    && (!inserted ==> forall k :: 0 <= k < j && k < |n| ==> !shouldInsert(Previous(o, i), o[i], n[k], i))
    && (NeverInserts(shouldInsert) ==> !inserted)
    && (inserted ==> accepted < |n| && shouldInsert(Previous(o, i), o[i], n[accepted], i))
    && PlaceFrom(o', n', i, j, shouldInsert) == PlaceFrom(o, n, i, 0, shouldInsert)
  }

  lemma AskedAccept<T(!new)>(o: seq<T>, n: seq<T>, i: nat, o': seq<T>, n': seq<T>, j: nat,
                              inserted: bool, accepted: nat, shouldInsert: (Option<T>, T, T, nat) -> bool)
    requires i < |o|
    requires Asked(o, n, i, o', n', j, inserted, accepted, shouldInsert)
    requires j < |n'|
    requires shouldInsert(Previous(o', i), o'[i], n'[j], i)
    ensures Asked(o, n, i, o'[..i] + [n'[j]] + o'[i..], n'[..j] + n'[j + 1..], j, true,
                   if inserted then accepted else j, shouldInsert)
  {
  }

  lemma AskedReject<T(!new)>(o: seq<T>, n: seq<T>, i: nat, o': seq<T>, n': seq<T>, j: nat,
                              inserted: bool, accepted: nat, shouldInsert: (Option<T>, T, T, nat) -> bool)
    requires i < |o|
    requires Asked(o, n, i, o', n', j, inserted, accepted, shouldInsert)
    requires j < |n'|
    requires !shouldInsert(Previous(o', i), o'[i], n'[j], i)
    ensures Asked(o, n, i, o', n', j + 1, inserted, accepted, shouldInsert)
  {
  }

  /** What a finished inner pass promises. */
  lemma PlaceDone<T(!new)>(oldItems: seq<T>, newItems: seq<T>, o: seq<T>, n: seq<T>, i: nat,
                           o': seq<T>, n': seq<T>, j: nat, moved: seq<T>,
                           inserted: bool, accepted: nat, shouldInsert: (Option<T>, T, T, nat) -> bool)
    requires Kept(oldItems, newItems, o, n, i, o', n', moved)
    requires Asked(o, n, i, o', n', j, inserted, accepted, shouldInsert)
    requires |n'| <= j
    ensures !inserted ==> forall x :: x in n ==> !shouldInsert(Previous(o, i), o[i], x, i)
    ensures inserted <==> exists k :: 0 <= k < |n| && shouldInsert(Previous(o, i), o[i], n[k], i)
    ensures o'[..i] == o[..i] && o'[|o'| - (|o| - i)..] == o[i..]
    ensures (o', n') == PlaceFrom(o, n, i, 0, shouldInsert)
  {
    assert o'[..i] == o[..i];
    assert o'[|o'| - (|o| - i)..] == o[i..];
    if !inserted {
      forall x | x in n ensures !shouldInsert(Previous(o, i), o[i], x, i) {
        var k :| 0 <= k < |n| && n[k] == x;
      }
    }
  }

  /** An item moved in front of position `i` joins the moved items, in front of
      those moved before it. */
  lemma MoveKeepsEnds<T>(o: seq<T>, moved: seq<T>, o': seq<T>, i: nat, x: T)
    requires i <= |o|
    requires o' == o[..i] + moved + o[i..]
    ensures o'[..i] + [x] + o'[i..] == o[..i] + ([x] + moved) + o[i..]
  {
    assert o'[..i] == o[..i];
    assert o'[i..] == moved + o[i..];
  }

  /** Moving the `j`-th pending item in front of position `i` keeps the items,
      the old items' order and the pending items' order. */
  lemma MoveFacts<T>(oldItems: seq<T>, newItems: seq<T>, o: seq<T>, n: seq<T>, i: nat, j: nat)
    requires i < |o| && j < |n|
    requires IsSubsequence(oldItems, o)
    requires IsSubsequence(n, newItems)
    ensures var o', n' := o[..i] + [n[j]] + o[i..], n[..j] + n[j + 1..];
            && |o'| + |n'| == |o| + |n|
            && multiset(o') + multiset(n') == multiset(o) + multiset(n)
            && IsSubsequence(oldItems, o')
            && IsSubsequence(n', newItems)
            && o'[..i] == o[..i]
  {
    SubsequenceInsert(oldItems, o, i, n[j]);
    SubsequenceRemove(n, newItems, j);
    assert o == o[..i] + o[i..];
    assert n == n[..j] + [n[j]] + n[j + 1..];
  }

  lemma {:induction false} MergedKeepsOld<T>(a: seq<T>, o: seq<T>, n: seq<T>)
    requires IsSubsequence(a, o)
    ensures IsSubsequence(a, o + n)
    decreases |n|
  {
    if n == [] {
      assert o + n == o;
    } else {
      var m := n[..|n| - 1];
      MergedKeepsOld(a, o, m);
      SubsequenceInsert(a, o + m, |o + m|, n[|n| - 1]);
      assert (o + m)[..|o + m|] + [n[|n| - 1]] + (o + m)[|o + m|..] == o + n by {
        assert n == m + [n[|n| - 1]];
      }
    }
  }
}
