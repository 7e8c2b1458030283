/** Sequence facts shared by the scanner, the closure builder, the merger and the
    session: duplicate-freedom, the insertion-ordered set that JavaScript's
    `[...new Set(xs)]` builds, first-occurrence positions and subsequences. */
module Seqs {

  /** The set of elements of a sequence. */
  function Elems<T>(s: seq<T>): set<T> {
    set x | x in s
  }

  /** No value occurs twice. */
  predicate NoDup<T(==)>(s: seq<T>) {
    forall i, j :: 0 <= i < j < |s| ==> s[i] != s[j]
  }

  /** Position of the first occurrence of `x` in `xs`, or `|xs|` when `x` is absent
      (what `indexOf` answers, with `|xs|` in place of -1). */
  function FirstIndex<T(==)>(xs: seq<T>, x: T): (k: nat)
    ensures k <= |xs|
    ensures k < |xs| <==> x in xs
    ensures k < |xs| ==> xs[k] == x
    ensures forall i :: 0 <= i < k ==> xs[i] != x
  {
    if xs == [] then 0
    else if xs[0] == x then 0
    else 1 + FirstIndex(xs[1..], x)
  }

  /** `Set.prototype.add` on an insertion-ordered set: a present element is skipped,
      a new one goes to the end. */
  function Add<T(==)>(acc: seq<T>, x: T): seq<T> {
    if x in acc then acc else acc + [x]
  }

  lemma AddFacts<T>(acc: seq<T>, x: T)
    ensures acc <= Add(acc, x)
    ensures Elems(Add(acc, x)) == Elems(acc) + {x}
    ensures NoDup(acc) ==> NoDup(Add(acc, x))
  {
    assert Elems(acc + [x]) == Elems(acc) + {x};
  }

  /** Adds the elements of `xs`, one at a time and in order, to the insertion-ordered
      set `acc`, as a loop of `Set.prototype.add` calls does. */
  function AddAll<T(==)>(acc: seq<T>, xs: seq<T>): (r: seq<T>)
    ensures acc <= r
    ensures Elems(r) == Elems(acc) + Elems(xs)
    ensures NoDup(acc) ==> NoDup(r)
    decreases |xs|
  {
    if xs == [] then acc
    else
      AddFacts(acc, xs[0]);
      assert Elems(xs) == {xs[0]} + Elems(xs[1..]);
      AddAll(Add(acc, xs[0]), xs[1..])
  }

  /** `[...new Set(xs)]`: the distinct elements of `xs`, each once. */
  function Dedup<T(==)>(xs: seq<T>): (r: seq<T>)
    ensures NoDup(r)
    ensures Elems(r) == Elems(xs)
    ensures |r| <= |xs|
  {
    DedupLength(xs);
    AddAll([], xs)
  }

  /** Folding over a concatenation is folding over each part in turn. */
  lemma {:induction false} AddAllConcat<T>(acc: seq<T>, a: seq<T>, b: seq<T>)
    ensures AddAll(acc, a + b) == AddAll(AddAll(acc, a), b)
    decreases |a|
  {
    if a != [] {
      assert (a + b)[0] == a[0];
      assert (a + b)[1..] == a[1..] + b;
      var acc' := Add(acc, a[0]);
      AddAllConcat(acc', a[1..], b);
      assert AddAll(acc, a) == AddAll(acc', a[1..]);
      assert AddAll(acc, a + b) == AddAll(acc', a[1..] + b);
    } else {
      assert a + b == b;
    }
  }

  /** Adding one more element either leaves the set as it is or appends that element. */
  lemma AddAllSnoc<T>(acc: seq<T>, xs: seq<T>, x: T)
    ensures AddAll(acc, xs + [x]) ==
              (var r := AddAll(acc, xs); if x in r then r else r + [x])
  {
    AddAllConcat(acc, xs, [x]);
    var r := AddAll(acc, xs);
    assert [x][1..] == [];
  }

  /** Adding only elements that are already present changes nothing. */
  lemma {:induction false} AddAllCovered<T>(acc: seq<T>, xs: seq<T>)
    requires forall x :: x in xs ==> x in acc
    ensures AddAll(acc, xs) == acc
    decreases |xs|
  {
    if xs != [] {
      AddAllCovered(acc, xs[1..]);
    }
  }

  /** The set built from an already duplicate-free sequence is that sequence. */
  lemma {:induction false} AddAllFresh<T>(acc: seq<T>, xs: seq<T>)
    requires NoDup(acc + xs)
    ensures AddAll(acc, xs) == acc + xs
    decreases |xs|
  {
    if xs != [] {
      assert (acc + xs)[|acc|] == xs[0];
      assert xs[0] !in acc by {
        forall i | 0 <= i < |acc| ensures acc[i] != xs[0] {
          assert (acc + xs)[i] == acc[i];
        }
      }
      assert acc + [xs[0]] + xs[1..] == acc + xs;
      AddAllFresh(acc + [xs[0]], xs[1..]);
    }
  }

  lemma DedupOfNoDup<T>(xs: seq<T>)
    requires NoDup(xs)
    ensures Dedup(xs) == xs
  {
    assert [] + xs == xs;
    AddAllFresh([], xs);
  }

  /** Deduplicating a duplicate-free prefix followed by more elements keeps the
      prefix and then adds the rest in order. */
  lemma DedupAppend<T>(a: seq<T>, b: seq<T>)
    requires NoDup(a)
    ensures Dedup(a + b) == AddAll(a, b)
  {
    AddAllConcat([], a, b);
    DedupOfNoDup(a);
  }

  /** The elements of `xs` that are not in `a`, in order. */
  function Without<T(==)>(xs: seq<T>, a: seq<T>): (r: seq<T>)
    ensures forall x :: x in r ==> x in xs && x !in a
    ensures forall x :: x in xs && x !in a ==> x in r
  {
    if xs == [] then []
    else (if xs[0] in a then [] else [xs[0]]) + Without(xs[1..], a)
  }

  /** Folding into `a + b` leaves `a` in front and folds the elements outside `a`
      into `b`. */
  lemma {:induction false} AddAllSplit<T>(a: seq<T>, b: seq<T>, xs: seq<T>)
    ensures AddAll(a + b, xs) == a + AddAll(b, Without(xs, a))
    decreases |xs|
  {
    if xs != [] {
      var x := xs[0];
      var w := Without(xs[1..], a);
      if x in a {
        assert Without(xs, a) == w;
        AddAllSplit(a, b, xs[1..]);
      } else {
        assert Without(xs, a) == [x] + w;
        assert ([x] + w)[0] == x && ([x] + w)[1..] == w;
        if x in b {
          AddAllSplit(a, b, xs[1..]);
        } else {
          assert a + b + [x] == a + (b + [x]);
          AddAllSplit(a, b + [x], xs[1..]);
        }
      }
    }
  }

  /** Adding `xs` to an insertion-ordered set appends the new elements of `xs`,
      each once, in the order of their first occurrence. */
  lemma AddAllAppendsNew<T>(acc: seq<T>, xs: seq<T>)
    ensures AddAll(acc, xs) == acc + Dedup(Without(xs, acc))
  {
    assert acc + [] == acc;
    AddAllSplit(acc, [], xs);
  }

  lemma {:induction false} AddAllLength<T>(acc: seq<T>, xs: seq<T>)
    ensures |AddAll(acc, xs)| <= |acc| + |xs|
    decreases |xs|
  {
    if xs != [] {
      AddAllLength(Add(acc, xs[0]), xs[1..]);
    }
  }

  lemma DedupLength<T>(xs: seq<T>)
    ensures |AddAll([], xs)| <= |xs|
  {
    AddAllLength([], xs);
  }

  /** In a prefix, an element occurs first where it occurs first in the whole. */
  lemma FirstIndexPrefix<T>(ys: seq<T>, zs: seq<T>, x: T)
    requires x in ys
    ensures FirstIndex(ys + zs, x) == FirstIndex(ys, x)
  {
    var k, k' := FirstIndex(ys + zs, x), FirstIndex(ys, x);
    assert (ys + zs)[k'] == x;
    if k < k' {
      assert ys[k] == (ys + zs)[k];
    }
  }

  /** `Dedup` lists the distinct elements in the order of their first occurrence. */
  lemma {:induction false} DedupFirstOccurrence<T>(xs: seq<T>)
    ensures forall i, j :: 0 <= i < j < |Dedup(xs)| ==>
              FirstIndex(xs, Dedup(xs)[i]) < FirstIndex(xs, Dedup(xs)[j])
    decreases |xs|
  {
    if xs != [] {
      var ys, x := xs[..|xs| - 1], xs[|xs| - 1];
      assert xs == ys + [x];
      DedupFirstOccurrence(ys);
      forall i, j | 0 <= i < j < |Dedup(xs)|
        ensures FirstIndex(xs, Dedup(xs)[i]) < FirstIndex(xs, Dedup(xs)[j])
      {
        DedupSnocOrder(ys, x, i, j);
      }
    }
  }

  /** One more element keeps the order of first occurrences of any two kept elements. */
  lemma DedupSnocOrder<T>(ys: seq<T>, x: T, i: nat, j: nat)
    requires forall i, j :: 0 <= i < j < |Dedup(ys)| ==>
               FirstIndex(ys, Dedup(ys)[i]) < FirstIndex(ys, Dedup(ys)[j])
    requires i < j < |Dedup(ys + [x])|
    ensures FirstIndex(ys + [x], Dedup(ys + [x])[i]) < FirstIndex(ys + [x], Dedup(ys + [x])[j])
  {
    AddAllSnoc([], ys, x);
    var r', r := Dedup(ys), Dedup(ys + [x]);
    assert r == r' || r == r' + [x];
    assert |r| == |r'| ==> r == r';
    assert r[i] == r'[i];
    assert r[i] in Elems(r');
    assert r[i] in ys;
    FirstIndexPrefix(ys, [x], r[i]);
    if j < |r'| {
      assert r[j] == r'[j];
      assert r[j] in Elems(r');
      FirstIndexPrefix(ys, [x], r[j]);
    } else {
      assert r[j] == x && x !in r';
      assert x !in Elems(ys);
      assert FirstIndex(ys + [x], x) == |ys|;
    }
  }

  /** `a` occurs in `b` in order, possibly with other elements in between. */
  predicate IsSubsequence<T(==)>(a: seq<T>, b: seq<T>)
    decreases |b|
  {
    a == [] ||
    (b != [] && ((a[0] == b[0] && IsSubsequence(a[1..], b[1..])) || IsSubsequence(a, b[1..])))
  }

  lemma {:induction false} SubsequenceRefl<T>(a: seq<T>)
    ensures IsSubsequence(a, a)
    decreases |a|
  {
    if a != [] {
      SubsequenceRefl(a[1..]);
    }
  }

  /** Inserting an element anywhere keeps every subsequence a subsequence. */
  lemma {:induction false} SubsequenceInsert<T>(a: seq<T>, b: seq<T>, i: nat, x: T)
    requires i <= |b|
    requires IsSubsequence(a, b)
    ensures IsSubsequence(a, b[..i] + [x] + b[i..])
    decreases |b|
  {
    var b' := b[..i] + [x] + b[i..];
    if a == [] {
    } else if i == 0 {
      assert b'[1..] == b;
    } else {
      var t := b[1..];
      assert b'[0] == b[0];
      assert b'[1..] == t[..i - 1] + [x] + t[i - 1..];
      if a[0] == b[0] && IsSubsequence(a[1..], t) {
        SubsequenceInsert(a[1..], t, i - 1, x);
      } else {
        SubsequenceInsert(a, t, i - 1, x);
      }
    }
  }

  /** Removing an element from a subsequence leaves a subsequence. */
  lemma {:induction false} SubsequenceRemove<T>(a: seq<T>, b: seq<T>, j: nat)
    requires j < |a|
    requires IsSubsequence(a, b)
    ensures IsSubsequence(a[..j] + a[j + 1..], b)
    decreases |b|
  {
    var a' := a[..j] + a[j + 1..];
    if a[0] == b[0] && IsSubsequence(a[1..], b[1..]) {
      if j == 0 {
        assert a' == a[1..];
      } else {
        var t := a[1..];
        assert a'[0] == a[0];
        assert a'[1..] == t[..j - 1] + t[j..];
        SubsequenceRemove(t, b[1..], j - 1);
      }
    } else {
      SubsequenceRemove(a, b[1..], j);
    }
  }
}
