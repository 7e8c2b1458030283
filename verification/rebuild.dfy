/** The module rebuild of `genIncrementTypes`: old aliases outside the live set,
    plus latest aliases inside it, sorted by name. */
module Rebuild {
  import opened Seqs
  import opened Ast

  /** Lexicographic order on strings, character by character (code-unit order;
      `localeCompare` is replaced by this plain order). */
  predicate NameLeq(a: string, b: string) {
    a == [] || (b != [] && (a[0] < b[0] || (a[0] == b[0] && NameLeq(a[1..], b[1..]))))
  }

  lemma {:induction false} NameLeqTotal(a: string, b: string)
    ensures NameLeq(a, b) || NameLeq(b, a)
    decreases |a|
  {
    if a != [] && b != [] && a[0] == b[0] {
      NameLeqTotal(a[1..], b[1..]);
    }
  }

  lemma {:induction false} NameLeqTrans(a: string, b: string, c: string)
    requires NameLeq(a, b) && NameLeq(b, c)
    ensures NameLeq(a, c)
    decreases |a|
  {
    if a != [] && a[0] == b[0] && b[0] == c[0] {
      NameLeqTrans(a[1..], b[1..], c[1..]);
    }
  }

  /** A common prefix does not change the order. */
  lemma {:induction false} NameLeqCommonPrefix(p: string, a: string, b: string)
    requires NameLeq(a, b)
    ensures NameLeq(p + a, p + b)
    decreases |p|
  {
    if p == [] {
      assert p + a == a && p + b == b;
    } else {
      assert (p + a)[0] == p[0] == (p + b)[0];
      assert (p + a)[1..] == p[1..] + a;
      assert (p + b)[1..] == p[1..] + b;
      NameLeqCommonPrefix(p[1..], a, b);
    }
  }

  /** Ascending by name. */
  predicate SortedByName(ds: seq<TypeAlias>) {
    forall i, j :: 0 <= i < j < |ds| ==> NameLeq(ds[i].name, ds[j].name)
  }

  /** Inserts `d` before the first alias whose name is not below it. */
  function InsertByName(d: TypeAlias, ds: seq<TypeAlias>): seq<TypeAlias> {
    if ds == [] then [d]
    else if NameLeq(d.name, ds[0].name) then [d] + ds
    else [ds[0]] + InsertByName(d, ds[1..])
  }

  /** Insertion adds exactly `d`, and a list sorted by name stays sorted. */
  lemma {:induction false} InsertByNameFacts(d: TypeAlias, ds: seq<TypeAlias>)
    ensures multiset(InsertByName(d, ds)) == multiset(ds) + multiset{d}
    ensures SortedByName(ds) ==> SortedByName(InsertByName(d, ds))
    decreases |ds|
  {
    if ds == [] {
    } else if NameLeq(d.name, ds[0].name) {
      InsertFrontSorted(d, ds);
    } else {
      assert ds == [ds[0]] + ds[1..];
      var rest := InsertByName(d, ds[1..]);
      InsertByNameFacts(d, ds[1..]);
      InsertLaterSorted(d, ds, rest);
    }
  }

  lemma InsertFrontSorted(d: TypeAlias, ds: seq<TypeAlias>)
    requires ds != [] && NameLeq(d.name, ds[0].name)
    ensures SortedByName(ds) ==> SortedByName([d] + ds)
  {
    if SortedByName(ds) {
      forall j | 0 <= j < |ds| ensures NameLeq(d.name, ds[j].name) {
        if j > 0 { NameLeqTrans(d.name, ds[0].name, ds[j].name); }
      }
    }
  }

  lemma InsertLaterSorted(d: TypeAlias, ds: seq<TypeAlias>, rest: seq<TypeAlias>)
    requires ds != [] && !NameLeq(d.name, ds[0].name)
    requires multiset(rest) == multiset(ds[1..]) + multiset{d}
    requires SortedByName(ds[1..]) ==> SortedByName(rest)
    ensures SortedByName(ds) ==> SortedByName([ds[0]] + rest)
  {
    if SortedByName(ds) {
      NameLeqTotal(d.name, ds[0].name);
      assert SortedByName(ds[1..]);
      forall y | y in rest ensures NameLeq(ds[0].name, y.name) {
        assert y in multiset(rest);
        if y != d {
          assert y in ds[1..];
        }
      }
    }
  }

  /** Insertion sort by name: `array.sort((a, b) => a.name.localeCompare(b.name))`. */
  function SortByName(ds: seq<TypeAlias>): seq<TypeAlias> {
    if ds == [] then [] else InsertByName(ds[0], SortByName(ds[1..]))
  }

  /** The sort result is sorted by name and a permutation of its input. */
  lemma {:induction false} SortByNameFacts(ds: seq<TypeAlias>)
    ensures SortedByName(SortByName(ds))
    ensures multiset(SortByName(ds)) == multiset(ds)
    decreases |ds|
  {
    if ds != [] {
      assert ds == [ds[0]] + ds[1..];
      SortByNameFacts(ds[1..]);
      InsertByNameFacts(ds[0], SortByName(ds[1..]));
    }
  }

  /** The aliases whose name is (`keep`) or is not (`!keep`) in the live set. */
  function FilterLive(ds: seq<TypeAlias>, live: seq<string>, keep: bool): seq<TypeAlias> {
    if ds == [] then []
    else (if (ds[0].name in live) == keep then [ds[0]] else []) + FilterLive(ds[1..], live, keep)
  }

  /** Filtering keeps exactly the aliases on the asked-for side of the live set,
      each as often as it occurs. */
  lemma {:induction false} FilterLiveFacts(ds: seq<TypeAlias>, live: seq<string>, keep: bool)
    ensures forall d :: d in FilterLive(ds, live, keep) <==> d in ds && (d.name in live <==> keep)
    ensures multiset(FilterLive(ds, live, keep)) <= multiset(ds)
    ensures forall d :: multiset(FilterLive(ds, live, keep))[d] == if (d.name in live) == keep then multiset(ds)[d] else 0
    decreases |ds|
  {
    if ds != [] {
      FilterLiveFacts(ds[1..], live, keep);
      assert ds == [ds[0]] + ds[1..];
      var head := if (ds[0].name in live) == keep then [ds[0]] else [];
      assert multiset(FilterLive(ds, live, keep)) == multiset(head) + multiset(FilterLive(ds[1..], live, keep));
      assert multiset(ds) == multiset{ds[0]} + multiset(ds[1..]);
    }
  }

  /** The rebuilt module: the old aliases outside the live set and the latest aliases
      inside it, sorted by name. An old alias in the live set is dropped whole
      (not diffed); a live name with no latest alias is simply absent. */
  function RebuildModule(olds: seq<TypeAlias>, latest: seq<TypeAlias>, live: seq<string>): (r: seq<TypeAlias>)
    ensures SortedByName(r)
    ensures multiset(r) == multiset(FilterLive(olds, live, false)) + multiset(FilterLive(latest, live, true))
    ensures forall d :: d in olds && d.name !in live ==> d in r
    ensures forall d :: d in latest && d.name in live ==> d in r
    ensures forall d :: d in r ==> (d in olds && d.name !in live) || (d in latest && d.name in live)
    ensures |r| <= |olds| + |latest|
  {
    var retained := FilterLive(olds, live, false);
    var increment := FilterLive(latest, live, true);
    FilterLiveFacts(olds, live, false);
    FilterLiveFacts(latest, live, true);
    var r := SortByName(retained + increment);
    SortByNameFacts(retained + increment);
    assert forall d :: d in r <==> d in multiset(retained + increment);
    assert |multiset(retained)| <= |multiset(olds)| && |multiset(increment)| <= |multiset(latest)| by {
      SubMultisetSize(multiset(retained), multiset(olds));
      SubMultisetSize(multiset(increment), multiset(latest));
    }
    assert |r| == |multiset(r)|;
    r
  }

  lemma SubMultisetSize<T>(a: multiset<T>, b: multiset<T>)
    requires a <= b
    ensures |a| <= |b|
  {
    assert b == a + (b - a);
  }

  /** With unique old names and unique latest names, the rebuilt module has unique
      names. */
  lemma RebuildNamesUnique(olds: seq<TypeAlias>, latest: seq<TypeAlias>, live: seq<string>)
    requires NoDup(Names(olds)) && NoDup(Names(latest))
    ensures NoDup(Names(RebuildModule(olds, latest, live)))
  {
    var r := RebuildModule(olds, latest, live);
    forall i, j | 0 <= i < j < |r| ensures r[i].name != r[j].name {
      if r[i].name == r[j].name {
        SameNameSameAlias(olds, latest, live, r[i], r[j]);
        AtMostOnce(olds, latest, live, r[i]);
        TwoPositions(r, i, j);
      }
    }
  }

  lemma TwoPositions<T>(s: seq<T>, i: nat, j: nat)
    requires i < j < |s| && s[i] == s[j]
    ensures multiset(s)[s[i]] >= 2
  {
    assert s == s[..j] + s[j..];
    assert s[i] in s[..j];
    assert s[j] in s[j..];
  }

  lemma SameNameSameAlias(olds: seq<TypeAlias>, latest: seq<TypeAlias>, live: seq<string>, a: TypeAlias, b: TypeAlias)
    requires NoDup(Names(olds)) && NoDup(Names(latest))
    requires a in RebuildModule(olds, latest, live) && b in RebuildModule(olds, latest, live)
    requires a.name == b.name
    ensures a == b
  {
    if a.name in live {
      UniqueName(latest, a, b);
    } else {
      UniqueName(olds, a, b);
    }
  }

  /** The names of the rebuilt module: the old names outside the live set and the
      latest names inside it. */
  lemma RebuildNameSet(olds: seq<TypeAlias>, latest: seq<TypeAlias>, live: seq<string>)
    ensures Elems(Names(RebuildModule(olds, latest, live))) ==
              (Elems(Names(olds)) - Elems(live)) + (Elems(Names(latest)) * Elems(live))
  {
    var r := RebuildModule(olds, latest, live);
    forall n ensures n in Elems(Names(r)) <==>
                     n in (Elems(Names(olds)) - Elems(live)) + (Elems(Names(latest)) * Elems(live))
    {
      RebuildName(olds, latest, live, n);
    }
  }

  lemma RebuildName(olds: seq<TypeAlias>, latest: seq<TypeAlias>, live: seq<string>, n: string)
    ensures n in Names(RebuildModule(olds, latest, live)) <==>
              (n in Names(olds) && n !in live) || (n in Names(latest) && n in live)
  {
    var r := RebuildModule(olds, latest, live);
    if n in Names(r) {
      var i :| 0 <= i < |r| && Names(r)[i] == n;
      assert r[i] in r;
      NameOf(olds, r[i]);
      NameOf(latest, r[i]);
    }
    if n in Names(olds) && n !in live {
      var i :| 0 <= i < |olds| && Names(olds)[i] == n;
      assert olds[i] in olds;
      NameOf(r, olds[i]);
    }
    if n in Names(latest) && n in live {
      var i :| 0 <= i < |latest| && Names(latest)[i] == n;
      assert latest[i] in latest;
      NameOf(r, latest[i]);
    }
  }

  lemma NameOf(ds: seq<TypeAlias>, d: TypeAlias)
    ensures d in ds ==> d.name in Names(ds)
  {
    if d in ds {
      var i :| 0 <= i < |ds| && ds[i] == d;
      assert Names(ds)[i] == d.name;
    }
  }

  lemma UniqueName(ds: seq<TypeAlias>, a: TypeAlias, b: TypeAlias)
    requires NoDup(Names(ds))
    requires a in ds && b in ds && a.name == b.name
    ensures a == b
  {
    var i :| 0 <= i < |ds| && ds[i] == a;
    var j :| 0 <= j < |ds| && ds[j] == b;
    assert Names(ds)[i] == Names(ds)[j];
  }

  /** No alias occurs twice in the rebuilt module when names are unique in both inputs. */
  lemma AtMostOnce(olds: seq<TypeAlias>, latest: seq<TypeAlias>, live: seq<string>, a: TypeAlias)
    requires NoDup(Names(olds)) && NoDup(Names(latest))
    ensures multiset(RebuildModule(olds, latest, live))[a] <= 1
  {
    var retained := FilterLive(olds, live, false);
    var increment := FilterLive(latest, live, true);
    FilterLiveFacts(olds, live, false);
    FilterLiveFacts(latest, live, true);
    CountOnce(olds, a);
    CountOnce(latest, a);
    if a.name in live {
      assert a !in retained;
    } else {
      assert a !in increment;
    }
  }

  lemma {:induction false} CountOnce(ds: seq<TypeAlias>, a: TypeAlias)
    requires NoDup(Names(ds))
    ensures multiset(ds)[a] <= 1
    decreases |ds|
  {
    if ds != [] {
      assert ds == [ds[0]] + ds[1..];
      assert NoDup(Names(ds[1..])) by {
        forall i, j | 0 <= i < j < |ds[1..]| ensures Names(ds[1..])[i] != Names(ds[1..])[j] {
          assert Names(ds)[i + 1] != Names(ds)[j + 1];
        }
      }
      CountOnce(ds[1..], a);
    }
  }

  /** The aliases of the sample typings module; `SuperMan`'s text is as the
      persisted module had it before the service changed. */
  function DemoOld(): seq<TypeAlias> {
    [ TypeAlias("SuperMan", "{ haha: number; }", OtherBody),
      TypeAlias("AdjustOrderDTO", "{ adjustOrderCode?: string; }", OtherBody),
      TypeAlias("AdjustOrderChangeWarehouseCmd", "{ adjustOrderId?: string; }", OtherBody),
      TypeAlias("AdjustOrderCreateCmd", "{ adjustTypeCode?: string; }", OtherBody) ]
  }

  function DemoLatest(): seq<TypeAlias> {
    [ TypeAlias("AdjustOrderChangeWarehouseCmd", "{ adjustOrderId?: string; }", OtherBody),
      TypeAlias("AdjustOrderCreateCmd", "{ adjustTypeCode?: string; }", OtherBody),
      TypeAlias("AdjustOrderDTO", "{ adjustOrderCode?: string; }", OtherBody),
      TypeAlias("SuperMan", "{ haha: string; }", OtherBody) ]
  }

  lemma DemoOrderChange()
    ensures NameLeq("AdjustOrderChangeWarehouseCmd", "AdjustOrderCreateCmd")
    ensures !NameLeq("AdjustOrderCreateCmd", "AdjustOrderChangeWarehouseCmd")
  {
    var p := "AdjustOrderC";
    assert "AdjustOrderChangeWarehouseCmd" == p + "hangeWarehouseCmd";
    assert "AdjustOrderCreateCmd" == p + "reateCmd";
    NameLeqCommonPrefix(p, "hangeWarehouseCmd", "reateCmd");
    NotLeqCommonPrefix(p, "reateCmd", "hangeWarehouseCmd");
  }

  lemma DemoOrderCreate()
    ensures NameLeq("AdjustOrderCreateCmd", "AdjustOrderDTO")
    ensures !NameLeq("AdjustOrderDTO", "AdjustOrderCreateCmd")
    ensures !NameLeq("AdjustOrderDTO", "AdjustOrderChangeWarehouseCmd")
  {
    var q := "AdjustOrder";
    assert "AdjustOrderCreateCmd" == q + "CreateCmd";
    assert "AdjustOrderDTO" == q + "DTO";
    assert "AdjustOrderChangeWarehouseCmd" == q + "ChangeWarehouseCmd";
    NameLeqCommonPrefix(q, "CreateCmd", "DTO");
    NotLeqCommonPrefix(q, "DTO", "CreateCmd");
    NotLeqCommonPrefix(q, "DTO", "ChangeWarehouseCmd");
  }

  lemma DemoOrderSuperMan()
    ensures NameLeq("AdjustOrderDTO", "SuperMan")
    ensures !NameLeq("SuperMan", "AdjustOrderDTO")
    ensures NameLeq("AdjustOrderCreateCmd", "SuperMan")
  {
  }

  lemma {:induction false} NotLeqCommonPrefix(p: string, a: string, b: string)
    requires !NameLeq(a, b)
    ensures !NameLeq(p + a, p + b)
    decreases |p|
  {
    if p == [] {
      assert p + a == a && p + b == b;
    } else {
      assert (p + a)[0] == p[0] == (p + b)[0];
      assert (p + a)[1..] == p[1..] + a;
      assert (p + b)[1..] == p[1..] + b;
      NotLeqCommonPrefix(p[1..], a, b);
    }
  }

  lemma DemoRetained()
    ensures FilterLive(DemoOld(), ["SuperMan"], false) == DemoOld()[1..]
  {
    var olds, live := DemoOld(), ["SuperMan"];
    assert FilterLive(olds[3..], live, false) == olds[3..];
    assert FilterLive(olds[2..], live, false) == olds[2..];
    assert FilterLive(olds[1..], live, false) == olds[1..];
  }

  lemma DemoIncrement()
    ensures FilterLive(DemoLatest(), ["SuperMan"], true) == [DemoLatest()[3]]
  {
    var latest, live := DemoLatest(), ["SuperMan"];
    assert FilterLive(latest[3..], live, true) == [latest[3]];
    assert FilterLive(latest[2..], live, true) == [latest[3]];
    assert FilterLive(latest[1..], live, true) == [latest[3]];
  }

  lemma InsertHere(d: TypeAlias, e: TypeAlias, ds: seq<TypeAlias>)
    requires NameLeq(d.name, e.name)
    ensures InsertByName(d, [e] + ds) == [d, e] + ds
  {
    assert ([e] + ds)[0] == e;
  }

  lemma InsertPast(d: TypeAlias, e: TypeAlias, ds: seq<TypeAlias>)
    requires !NameLeq(d.name, e.name)
    ensures InsertByName(d, [e] + ds) == [e] + InsertByName(d, ds)
  {
    assert ([e] + ds)[0] == e && ([e] + ds)[1..] == ds;
  }

  lemma SortCons(d: TypeAlias, ds: seq<TypeAlias>)
    ensures SortByName([d] + ds) == InsertByName(d, SortByName(ds))
  {
    assert ([d] + ds)[0] == d && ([d] + ds)[1..] == ds;
  }

  /** Sorting four aliases where the last three are in order and the first
      belongs third. */
  lemma SortFour(a: TypeAlias, b: TypeAlias, c: TypeAlias, d: TypeAlias)
    requires NameLeq(b.name, c.name) && NameLeq(c.name, d.name)
    requires !NameLeq(a.name, b.name) && !NameLeq(a.name, c.name) && NameLeq(a.name, d.name)
    ensures SortByName([a, b, c, d]) == [b, c, a, d]
  {
    SortCons(d, []);
    assert [d] + [] == [d];
    SortCons(c, [d]);
    InsertHere(c, d, []);
    SortCons(b, [c, d]);
    InsertHere(b, c, [d]);
    SortCons(a, [b, c, d]);
    InsertPast(a, b, [c, d]);
    InsertPast(a, c, [d]);
    InsertHere(a, d, []);
  }

  lemma RebuildIsSort(olds: seq<TypeAlias>, latest: seq<TypeAlias>, live: seq<string>)
    ensures RebuildModule(olds, latest, live) ==
              SortByName(FilterLive(olds, live, false) + FilterLive(latest, live, true))
  {
  }

  lemma DemoSorted()
    ensures SortByName(DemoOld()[1..] + [DemoLatest()[3]]) ==
              [DemoOld()[2], DemoOld()[3], DemoOld()[1], DemoLatest()[3]]
  {
    var olds, latest := DemoOld(), DemoLatest();
    assert olds[1..] + [latest[3]] == [olds[1], olds[2], olds[3], latest[3]];
    DemoOrderChange();
    DemoOrderCreate();
    DemoOrderSuperMan();
    SortFour(olds[1], olds[2], olds[3], latest[3]);
  }

  /** With the live set `{SuperMan}` the rebuilt module lists the four names in
      order, `SuperMan` with its latest text and the other three as they were. */
  lemma DemoRebuild()
    ensures RebuildModule(DemoOld(), DemoLatest(), ["SuperMan"]) ==
              [DemoOld()[2], DemoOld()[3], DemoOld()[1], DemoLatest()[3]]
  {
    RebuildIsSort(DemoOld(), DemoLatest(), ["SuperMan"]);
    DemoRetained();
    DemoIncrement();
    DemoSorted();
  }
}
