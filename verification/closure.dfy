/** The dependency-closure builder (`getControllerTypesDep`): every typing a service
    source needs, found by following property references through the typings module. */
module Closure {
  import opened Wrappers
  import opened Seqs
  import opened Ast
  import opened Scanner

  /** `module.getTypeAlias(name)`: the first alias with that name, if any. */
  function Lookup(decls: seq<TypeAlias>, name: string): (r: Option<TypeAlias>)
    ensures r.None? <==> forall i :: 0 <= i < |decls| ==> decls[i].name != name
    ensures r.Some? ==> r.value in decls && r.value.name == name
    ensures r.Some? ==> exists k :: 0 <= k < |decls| && decls[k] == r.value
                                   && forall k' :: 0 <= k' < k ==> decls[k'].name != name
  {
    if decls == [] then None
    else if decls[0].name == name then Some(decls[0])
    else Lookup(decls[1..], name)
  }

  /** The references of a type literal's property signatures, property by property,
      each as its full text (`API.Foo` stays `API.Foo`, unlike entry references). */
  function MemberRefs(ms: seq<Member>): seq<string> {
    if ms == [] then []
    else
      var head := if ms[0].PropertySignature? && ReferenceIn(ms[0].annotation).Some?
                  then [Text(ReferenceIn(ms[0].annotation).value)] else [];
      head + MemberRefs(ms[1..])
  }

  /** The property references of the alias named `name`; none when no alias has
      that name or its type is not a type literal (the source swallows the
      exception both cases raise). */
  function RefsOf(decls: seq<TypeAlias>, name: string): seq<string> {
    match Lookup(decls, name)
    case Some(TypeAlias(_, _, TypeLiteral(members))) => MemberRefs(members)
    case _ => []
  }

  /** Some property signature among `ms` is annotated, directly or one array level
      down, with a reference whose text is `x`. */
  ghost predicate PropertyRefers(ms: seq<Member>, x: string) {
    exists k :: 0 <= k < |ms| && ms[k].PropertySignature? && RefText(ReferenceIn(ms[k].annotation)) == Some(x)
  }

  /** The text of a found reference. */
  function RefText(r: Option<TypeName>): Option<string> {
    if r.Some? then Some(Text(r.value)) else None
  }

  /** The collected references are exactly the texts of the references of the
      property signatures; other members contribute nothing. */
  lemma {:induction false} MemberRefsExactly(ms: seq<Member>, x: string)
    ensures x in MemberRefs(ms) <==> PropertyRefers(ms, x)
    decreases |ms|
  {
    if ms != [] {
      MemberRefsExactly(ms[1..], x);
      if PropertyRefers(ms[1..], x) {
        var k :| 0 <= k < |ms[1..]| && ms[1..][k].PropertySignature? && RefText(ReferenceIn(ms[1..][k].annotation)) == Some(x);
        assert ms[k + 1] == ms[1..][k];
      }
      if PropertyRefers(ms, x) {
        var k :| 0 <= k < |ms| && ms[k].PropertySignature? && RefText(ReferenceIn(ms[k].annotation)) == Some(x);
        if k > 0 {
          assert ms[1..][k - 1] == ms[k];
        }
      }
    }
  }

  /** The references of `name` are the property references of the first alias with
      that name when its type is a type literal, and nothing otherwise. */
  lemma RefsOfExactly(decls: seq<TypeAlias>, name: string, x: string)
    ensures x in RefsOf(decls, name) <==>
              && Lookup(decls, name).Some?
              && Lookup(decls, name).value.body.TypeLiteral?
              && PropertyRefers(Lookup(decls, name).value.body.members, x)
  {
    if Lookup(decls, name).Some? && Lookup(decls, name).value.body.TypeLiteral? {
      MemberRefsExactly(Lookup(decls, name).value.body.members, x);
    }
  }

  /** Every property reference anywhere in the module. */
  function AllRefs(decls: seq<TypeAlias>): set<string> {
    if decls == [] then {}
    else
      Elems(match decls[0].body case TypeLiteral(ms) => MemberRefs(ms) case OtherBody => [])
        + AllRefs(decls[1..])
  }

  lemma {:induction false} RefsOfInAllRefs(decls: seq<TypeAlias>, name: string)
    ensures Elems(RefsOf(decls, name)) <= AllRefs(decls)
    decreases |decls|
  {
    if decls != [] && decls[0].name != name {
      RefsOfInAllRefs(decls[1..], name);
      assert RefsOf(decls, name) == RefsOf(decls[1..], name);
    }
  }

  /** `typeReferences.filter((tr) => !depTypes.includes(tr))`. */
  function NotIn(refs: seq<string>, acc: seq<string>): (r: seq<string>)
    ensures forall x :: x in r <==> x in refs && x !in acc
  {
    if refs == [] then []
    else (if refs[0] in acc then [] else [refs[0]]) + NotIn(refs[1..], acc)
  }

  /** The property references of `name` that a traversal has not yet collected. */
  function Pending(decls: seq<TypeAlias>, acc: seq<string>): set<string> {
    AllRefs(decls) - Elems(acc)
  }

  /** All property references of `name` are among the collected names. */
  predicate Expanded(decls: seq<TypeAlias>, name: string, acc: seq<string>) {
    forall x :: x in RefsOf(decls, name) ==> x in acc
  }

  lemma ExpandedGrows(decls: seq<TypeAlias>, name: string, acc: seq<string>, acc': seq<string>)
    requires acc <= acc'
    requires Expanded(decls, name, acc)
    ensures Expanded(decls, name, acc')
  {
    forall x | x in RefsOf(decls, name) ensures x in acc' {
      var i :| 0 <= i < |acc| && acc[i] == x;
      assert acc'[i] == x;
    }
  }

  lemma PrefixMembers(acc: seq<string>, acc': seq<string>, x: string)
    requires acc <= acc'
    requires x in acc
    ensures x in acc'
  {
    var i :| 0 <= i < |acc| && acc[i] == x;
    assert acc'[i] == x;
  }

  /** `getTypeReferenceDeps(name)`: appends the property references of `name` that
      are not yet collected, then expands each of those in turn. A name is expanded
      only when it first enters the accumulator, which also stops cycles. */
  function Expand(decls: seq<TypeAlias>, acc: seq<string>, name: string): (r: seq<string>)
    ensures acc <= r
    ensures Expanded(decls, name, r)
    ensures forall n :: n in r && n !in acc ==> Expanded(decls, n, r)
    decreases Pending(decls, acc), 0
  {
    var added := NotIn(RefsOf(decls, name), acc);
    if added == [] then
      assert forall x :: x in RefsOf(decls, name) ==> x in acc by {
        forall x | x in RefsOf(decls, name) ensures x in acc { assert x !in added; }
      }
      acc
    else
      PendingShrinks(decls, acc, name, added);
      var r := ExpandAll(decls, acc + added, added);
      ExpandStep(decls, acc, name, added, r);
      r
  }

  /** Appending not-yet-collected references of a declared name shrinks what is pending. */
  lemma PendingShrinks(decls: seq<TypeAlias>, acc: seq<string>, name: string, added: seq<string>)
    requires added == NotIn(RefsOf(decls, name), acc)
    requires added != []
    ensures Pending(decls, acc + added) < Pending(decls, acc)
  {
    RefsOfInAllRefs(decls, name);
    assert added[0] in RefsOf(decls, name);
    assert added[0] in Elems(acc + added) && added[0] !in Elems(acc);
    assert Elems(acc) <= Elems(acc + added);
  }

  /** The step from the contract of the inner `ExpandAll` to that of `Expand`. */
  lemma ExpandStep(decls: seq<TypeAlias>, acc: seq<string>, name: string, added: seq<string>, r: seq<string>)
    requires added == NotIn(RefsOf(decls, name), acc)
    requires acc + added <= r
    requires forall n :: n in added ==> Expanded(decls, n, r)
    requires forall n :: n in r && n !in acc + added ==> Expanded(decls, n, r)
    ensures acc <= r
    ensures Expanded(decls, name, r)
    ensures forall n :: n in r && n !in acc ==> Expanded(decls, n, r)
  {
    assert acc <= acc + added;
    forall x | x in RefsOf(decls, name) ensures x in r {
      assert x in acc + added;
      PrefixMembers(acc + added, r, x);
    }
  }

  /** `names.forEach((n) => getTypeReferenceDeps(n))`. */
  function ExpandAll(decls: seq<TypeAlias>, acc: seq<string>, names: seq<string>): (r: seq<string>)
    ensures acc <= r
    ensures forall n :: n in names ==> Expanded(decls, n, r)
    ensures forall n :: n in r && n !in acc ==> Expanded(decls, n, r)
    decreases Pending(decls, acc), |names|
  {
    if names == [] then acc
    else
      var acc' := Expand(decls, acc, names[0]);
      assert forall x :: x in acc ==> x in acc' by {
        forall x | x in acc ensures x in acc' { PrefixMembers(acc, acc', x); }
      }
      var r := ExpandAll(decls, acc', names[1..]);
      ExpandedGrows(decls, names[0], acc', r);
      assert forall n :: n in acc' && n !in acc ==> Expanded(decls, n, r) by {
        forall n | n in acc' && n !in acc ensures Expanded(decls, n, r) {
          ExpandedGrows(decls, n, acc', r);
        }
      }
      r
  }

  /** `getControllerTypesDep`: the entry references of the service source, then
      everything reachable from them through property references, each once. */
  function ControllerTypesDep(service: seq<FunctionDecl>, decls: seq<TypeAlias>): (r: seq<string>)
    ensures NoDup(r)
    ensures ControllerTypes(service) <= r
    ensures forall n :: n in r ==> Expanded(decls, n, r)
  {
    var entries := ControllerTypes(service);
    var all := ExpandAll(decls, entries, entries);
    assert all == entries + all[|entries|..];
    DedupAppend(entries, all[|entries|..]);
    var r := Dedup(all);
    assert forall n :: n in r <==> n in all by {
      forall n ensures n in r <==> n in all {
        assert n in r <==> n in Elems(r);
        assert n in all <==> n in Elems(all);
      }
    }
    assert forall n :: n in all ==> Expanded(decls, n, all);
    r
  }

  /** A chain of property references that starts at a seed. */
  ghost predicate IsPath(decls: seq<TypeAlias>, seeds: seq<string>, p: seq<string>) {
    |p| > 0 && p[0] in seeds &&
    forall k :: 0 <= k < |p| - 1 ==> p[k + 1] in RefsOf(decls, p[k])
  }

  /** `n` can be reached from a seed by following property references. */
  ghost predicate Reachable(decls: seq<TypeAlias>, seeds: seq<string>, n: string) {
    exists p :: IsPath(decls, seeds, p) && p[|p| - 1] == n
  }

  lemma PathExtend(decls: seq<TypeAlias>, seeds: seq<string>, name: string, x: string)
    requires Reachable(decls, seeds, name)
    requires x in RefsOf(decls, name)
    ensures Reachable(decls, seeds, x)
  {
    var p :| IsPath(decls, seeds, p) && p[|p| - 1] == name;
    var q := p + [x];
    assert forall k :: 0 <= k < |p| ==> q[k] == p[k];
    assert IsPath(decls, seeds, q);
  }

  lemma {:induction false} ExpandSound(decls: seq<TypeAlias>, seeds: seq<string>, acc: seq<string>, name: string)
    requires forall n :: n in acc ==> Reachable(decls, seeds, n)
    requires name in acc
    ensures forall n :: n in Expand(decls, acc, name) ==> Reachable(decls, seeds, n)
    decreases Pending(decls, acc), 0
  {
    var added := NotIn(RefsOf(decls, name), acc);
    if added != [] {
      PendingShrinks(decls, acc, name, added);
      forall n | n in acc + added ensures Reachable(decls, seeds, n) {
        if n !in acc {
          PathExtend(decls, seeds, name, n);
        }
      }
      ExpandAllSound(decls, seeds, acc + added, added);
    }
  }

  lemma {:induction false} ExpandAllSound(decls: seq<TypeAlias>, seeds: seq<string>, acc: seq<string>, names: seq<string>)
    requires forall n :: n in acc ==> Reachable(decls, seeds, n)
    requires forall n :: n in names ==> n in acc
    ensures forall n :: n in ExpandAll(decls, acc, names) ==> Reachable(decls, seeds, n)
    decreases Pending(decls, acc), |names|
  {
    if names != [] {
      ExpandSound(decls, seeds, acc, names[0]);
      var acc' := Expand(decls, acc, names[0]);
      forall n | n in names[1..] ensures n in acc' { PrefixMembers(acc, acc', n); }
      ExpandAllSound(decls, seeds, acc', names[1..]);
    }
  }

  lemma {:induction false} PathInside(decls: seq<TypeAlias>, seeds: seq<string>, s: seq<string>, p: seq<string>, k: nat)
    requires forall x :: x in seeds ==> x in s
    requires forall x :: x in s ==> Expanded(decls, x, s)
    requires IsPath(decls, seeds, p)
    requires k < |p|
    ensures p[k] in s
  {
    if k > 0 {
      PathInside(decls, seeds, s, p, k - 1);
      assert p[k] in RefsOf(decls, p[k - 1]);
    }
  }

  /** The closure holds exactly the names reachable from the entry references:
      closed under property references, and holding nothing else. */
  lemma ClosureIsReachable(service: seq<FunctionDecl>, decls: seq<TypeAlias>, n: string)
    ensures n in ControllerTypesDep(service, decls) <==> Reachable(decls, ControllerTypes(service), n)
  {
    if Reachable(decls, ControllerTypes(service), n) {
      ClosureComplete(service, decls, n);
    }
    if n in ControllerTypesDep(service, decls) {
      ClosureSound(service, decls, n);
    }
  }

  lemma ClosureComplete(service: seq<FunctionDecl>, decls: seq<TypeAlias>, n: string)
    requires Reachable(decls, ControllerTypes(service), n)
    ensures n in ControllerTypesDep(service, decls)
  {
    var entries := ControllerTypes(service);
    var r := ControllerTypesDep(service, decls);
    var p :| IsPath(decls, entries, p) && p[|p| - 1] == n;
    forall x | x in entries ensures x in r { PrefixMembers(entries, r, x); }
    PathInside(decls, entries, r, p, |p| - 1);
  }

  lemma ClosureSound(service: seq<FunctionDecl>, decls: seq<TypeAlias>, n: string)
    requires n in ControllerTypesDep(service, decls)
    ensures Reachable(decls, ControllerTypes(service), n)
  {
    var entries := ControllerTypes(service);
    forall x | x in entries ensures Reachable(decls, entries, x) {
      assert IsPath(decls, entries, [x]);
    }
    ExpandAllSound(decls, entries, entries, entries);
    ClosureUnfold(service, decls);
    var all := ExpandAll(decls, entries, entries);
    assert n in Elems(Dedup(all));
  }

  lemma ClosureUnfold(service: seq<FunctionDecl>, decls: seq<TypeAlias>)
    ensures ControllerTypesDep(service, decls) ==
              Dedup(ExpandAll(decls, ControllerTypes(service), ControllerTypes(service)))
  {
  }

  /** The closure is the expansion itself when that has no repeats. */
  lemma ClosureIs(service: seq<FunctionDecl>, decls: seq<TypeAlias>, entries: seq<string>, all: seq<string>)
    requires ControllerTypes(service) == entries
    requires ExpandAll(decls, entries, entries) == all
    requires NoDup(all)
    ensures ControllerTypesDep(service, decls) == all
  {
    ClosureUnfold(service, decls);
    DedupOfNoDup(all);
  }

  lemma PairNoDup(a: string, b: string)
    requires a != b
    ensures NoDup([a, b])
  {
  }

  /** Two aliases that refer to each other, and a service whose one function takes `API.A`. */
  function CycleTypings(): seq<TypeAlias> {
    [ TypeAlias("A", "{ b: B; }", TypeLiteral([PropertySignature(Reference(Identifier("B")))])),
      TypeAlias("B", "{ a: A[]; }", TypeLiteral([PropertySignature(ArrayOf(Reference(Identifier("A"))))])) ]
  }

  function CycleService(): seq<FunctionDecl> {
    [FunctionDecl([Reference(Qualified("API", "A"))], NoReturn)]
  }

  /** The service's one entry is `A`, with the `API.` qualifier cut off. */
  lemma CycleEntries()
    ensures ControllerTypes(CycleService()) == ["A"]
  {
    assert RawNames(CycleService()) == [Some("A"), None];
    assert Present([Some("A"), None]) == ["A"];
    DedupOfNoDup(["A"]);
  }

  lemma CycleRefs()
    ensures RefsOf(CycleTypings(), "A") == ["B"]
    ensures RefsOf(CycleTypings(), "B") == ["A"]
  {
  }

  lemma CycleExpandB()
    ensures Expand(CycleTypings(), ["A", "B"], "B") == ["A", "B"]
  {
    CycleRefs();
    assert NotIn(["A"], ["A", "B"]) == [];
  }

  lemma CycleExpand()
    ensures ExpandAll(CycleTypings(), ["A"], ["A"]) == ["A", "B"]
  {
    CycleRefs();
    CycleExpandB();
    assert NotIn(["B"], ["A"]) == ["B"];
    assert ["A"] + ["B"] == ["A", "B"];
    assert ExpandAll(CycleTypings(), ["A", "B"], ["B"]) == ["A", "B"];
    assert Expand(CycleTypings(), ["A"], "A") == ["A", "B"];
  }

  /** On the cycle A -> B -> A the traversal stops and collects exactly A and B. */
  lemma CycleClosure()
    ensures ControllerTypesDep(CycleService(), CycleTypings()) == ["A", "B"]
  {
    CycleEntries();
    CycleExpand();
    PairNoDup("A", "B");
    ClosureIs(CycleService(), CycleTypings(), ["A"], ["A", "B"]);
  }

  /** `A` refers to `API.B`; `B` refers to `C`. */
  function QualifiedTypings(): seq<TypeAlias> {
    [ TypeAlias("A", "{ b: API.B; }", TypeLiteral([PropertySignature(Reference(Qualified("API", "B")))])),
      TypeAlias("B", "{ c: C; }", TypeLiteral([PropertySignature(Reference(Identifier("C")))])) ]
  }

  lemma QualifiedRefs()
    ensures RefsOf(QualifiedTypings(), "A") == ["API.B"]
    ensures RefsOf(QualifiedTypings(), "API.B") == []
  {
    assert Text(Qualified("API", "B")) == "API.B";
  }

  lemma QualifiedExpand()
    ensures ExpandAll(QualifiedTypings(), ["A"], ["A"]) == ["A", "API.B"]
  {
    var decls := QualifiedTypings();
    QualifiedRefs();
    assert NotIn(["API.B"], ["A"]) == ["API.B"];
    assert Expand(decls, ["A", "API.B"], "API.B") == ["A", "API.B"];
    assert ExpandAll(decls, ["A", "API.B"], ["API.B"]) == ["A", "API.B"];
    assert Expand(decls, ["A"], "A") == ["A", "API.B"];
  }

  /** Property references keep their qualifier: a property typed `API.B` does not
      lead to the alias `B`, so the closure holds the text `API.B` instead. */
  lemma QualifiedPropertyNotFollowed()
    ensures ControllerTypesDep(CycleService(), QualifiedTypings()) == ["A", "API.B"]
  {
    CycleEntries();
    QualifiedExpand();
    ClosureIs(CycleService(), QualifiedTypings(), ["A"], ["A", "API.B"]);
  }
}
