/** The entry-reference scanner: which typings a service source mentions directly. */
module Scanner {
  import opened Wrappers
  import opened Seqs
  import opened Ast

  /** The name a reference contributes: the right-hand identifier of a qualified
      name, nothing for an unqualified one or for no reference at all. */
  function TypeReferenceName(x: Option<TypeName>): (r: Option<string>)
    ensures r.Some? <==> x.Some? && x.value.Qualified?
    ensures r.Some? ==> x == Some(Qualified(x.value.left, r.value))
  {
    match x
    case Some(Qualified(_, right)) => Some(right)
    case _ => None
  }

  /** The first direct type reference among some type arguments. */
  function FirstReference(ts: seq<TypeExpr>): (r: Option<TypeName>)
    ensures r.None? <==> forall k :: 0 <= k < |ts| ==> !ts[k].Reference?
    ensures r.Some? ==> exists k :: 0 <= k < |ts| && ts[k] == Reference(r.value) &&
                          forall k' :: 0 <= k' < k ==> !ts[k'].Reference?
  {
    if ts == [] then None
    else if ts[0].Reference? then Some(ts[0].name)
    else FirstReference(ts[1..])
  }

  /** The element type of the first array type among some type arguments. */
  function FirstArrayElement(ts: seq<TypeExpr>): (r: Option<TypeExpr>)
    ensures r.None? <==> forall k :: 0 <= k < |ts| ==> !ts[k].ArrayOf?
    ensures r.Some? ==> exists k :: 0 <= k < |ts| && ts[k] == ArrayOf(r.value) &&
                          forall k' :: 0 <= k' < k ==> !ts[k'].ArrayOf?
  {
    if ts == [] then None
    else if ts[0].ArrayOf? then Some(ts[0].element)
    else FirstArrayElement(ts[1..])
  }

  /** The reference a return statement yields. The first shape, `f<API.Foo>(...)`,
      takes the call's first direct type-reference argument; only when there is
      none is the second shape, `f<API.Foo[]>(...)`, tried on the call's first
      array-type argument. Anything else yields nothing, without an error. */
  function ReturnReference(ret: ReturnStmt): (r: Option<TypeName>)
    ensures r.Some? ==> ret.ReturnCall?
    ensures r.Some? ==> exists k :: 0 <= k < |ret.typeArgs| &&
                          (ret.typeArgs[k] == Reference(r.value) || ret.typeArgs[k] == ArrayOf(Reference(r.value)))
    ensures ret.ReturnCall? && (exists k :: 0 <= k < |ret.typeArgs| && ret.typeArgs[k].Reference?) ==>
              r == FirstReference(ret.typeArgs)
    ensures ret.ReturnCall? && (forall k :: 0 <= k < |ret.typeArgs| ==> !ret.typeArgs[k].ArrayOf?) ==>
              r == FirstReference(ret.typeArgs)
    ensures ret.ReturnCall? && FirstReference(ret.typeArgs).None? ==>
              r == (match FirstArrayElement(ret.typeArgs)
                    case Some(Reference(n)) => Some(n)
                    case _ => None)
    ensures !ret.ReturnCall? ==> r.None?
  {
    match ret
    case ReturnCall(targs) =>
      (match FirstReference(targs)
       case Some(n) => Some(n)
       case None =>
         match FirstArrayElement(targs)
         case Some(Reference(n)) => Some(n)
         case _ => None)
    case _ => None
  }

  /** The names one function contributes, absent ones included: one per parameter,
      in parameter order, then one for the return statement. */
  function FunctionNames(f: FunctionDecl): (r: seq<Option<string>>)
    ensures |r| == |f.params| + 1
    ensures forall i, n :: 0 <= i < |f.params| ==>
              (r[i] == Some(n) <==> QualifiedTo(ReferenceIn(f.params[i]), n))
    ensures forall n :: r[|f.params|] == Some(n) <==> QualifiedTo(ReturnReference(f.ret), n)
  {
    seq(|f.params|, i requires 0 <= i < |f.params| => TypeReferenceName(ReferenceIn(f.params[i])))
      + [TypeReferenceName(ReturnReference(f.ret))]
  }

  /** The names of all functions, function by function. */
  function RawNames(fs: seq<FunctionDecl>): seq<Option<string>> {
    if fs == [] then [] else FunctionNames(fs[0]) + RawNames(fs[1..])
  }

  /** `filter((x) => !!x)`: drops absent names and the empty string, keeping every
      other name as often as it occurs. */
  function Present(xs: seq<Option<string>>): (r: seq<string>)
    ensures forall n :: n in r <==> n != "" && Some(n) in xs
    ensures |r| <= |xs|
  {
    if xs == [] then []
    else
      var rest := Present(xs[1..]);
      assert forall n :: Some(n) in xs <==> Some(n) == xs[0] || Some(n) in xs[1..];
      if xs[0].Some? && xs[0].value != "" then [xs[0].value] + rest else rest
  }

  /** The filter keeps every present name as often as it occurs, and nothing else. */
  lemma {:induction false} PresentCounts(xs: seq<Option<string>>)
    ensures forall n :: n != "" ==> multiset(Present(xs))[n] == multiset(xs)[Some(n)]
    ensures multiset(Present(xs))[""] == 0
    decreases |xs|
  {
    if xs != [] {
      PresentCounts(xs[1..]);
      assert xs == [xs[0]] + xs[1..];
    }
  }

  /** The filter keeps the order: of two kept names, the one that occurs first in
      the filtered list is the one that occurs first in the unfiltered list. */
  lemma {:induction false} PresentFirstOccurrence(xs: seq<Option<string>>)
    ensures forall x, y :: x in Present(xs) && y in Present(xs) ==>
              (FirstIndex(Present(xs), x) < FirstIndex(Present(xs), y) <==>
               FirstIndex(xs, Some(x)) < FirstIndex(xs, Some(y)))
    decreases |xs|
  {
    if xs != [] {
      PresentFirstOccurrence(xs[1..]);
      var r, t := Present(xs), Present(xs[1..]);
      if xs[0].Some? && xs[0].value != "" {
        assert r == [xs[0].value] + t;
        forall x, y | x in r && y in r
          ensures FirstIndex(r, x) < FirstIndex(r, y) <==> FirstIndex(xs, Some(x)) < FirstIndex(xs, Some(y))
        {
          if x != xs[0].value {
            assert FirstIndex(r, x) == 1 + FirstIndex(t, x);
            assert FirstIndex(xs, Some(x)) == 1 + FirstIndex(xs[1..], Some(x));
          }
          if y != xs[0].value {
            assert FirstIndex(r, y) == 1 + FirstIndex(t, y);
            assert FirstIndex(xs, Some(y)) == 1 + FirstIndex(xs[1..], Some(y));
          }
        }
      } else {
        forall x, y | x in r && y in r
          ensures FirstIndex(r, x) < FirstIndex(r, y) <==> FirstIndex(xs, Some(x)) < FirstIndex(xs, Some(y))
        {
          assert FirstIndex(xs, Some(x)) == 1 + FirstIndex(xs[1..], Some(x));
          assert FirstIndex(xs, Some(y)) == 1 + FirstIndex(xs[1..], Some(y));
        }
      }
    }
  }

  /** `getTypesFormController`: the distinct entry references of a service source,
      each at its first occurrence in parameters-then-return, function by function. */
  function ControllerTypes(fs: seq<FunctionDecl>): (r: seq<string>)
    ensures NoDup(r)
    ensures "" !in r
    ensures forall n :: n in r <==> n != "" && Some(n) in RawNames(fs)
  {
    var r := Dedup(Present(RawNames(fs)));
    assert forall n :: n in r <==> n in Elems(r);
    r
  }

  /** A function mentions `n` when `API.n` is a parameter's type (directly or as
      its array element type) or is what the return statement yields. */
  ghost predicate MentionsQualified(f: FunctionDecl, n: string) {
    (exists i :: 0 <= i < |f.params| && QualifiedTo(ReferenceIn(f.params[i]), n))
    || QualifiedTo(ReturnReference(f.ret), n)
  }

  ghost predicate QualifiedTo(r: Option<TypeName>, n: string) {
    r.Some? && r.value.Qualified? && r.value.right == n
  }

  lemma FunctionNamesMention(f: FunctionDecl, n: string)
    ensures Some(n) in FunctionNames(f) <==> MentionsQualified(f, n)
  {
    var ps := seq(|f.params|, i requires 0 <= i < |f.params| => TypeReferenceName(ReferenceIn(f.params[i])));
    assert FunctionNames(f) == ps + [TypeReferenceName(ReturnReference(f.ret))];
    if Some(n) in ps {
      var i :| 0 <= i < |ps| && ps[i] == Some(n);
      assert QualifiedTo(ReferenceIn(f.params[i]), n);
    }
    if exists i :: 0 <= i < |f.params| && QualifiedTo(ReferenceIn(f.params[i]), n) {
      var i :| 0 <= i < |f.params| && QualifiedTo(ReferenceIn(f.params[i]), n);
      assert ps[i] == Some(n);
    }
  }

  lemma {:induction false} RawNamesMention(fs: seq<FunctionDecl>, n: string)
    ensures Some(n) in RawNames(fs) <==> exists f :: f in fs && MentionsQualified(f, n)
    decreases |fs|
  {
    if fs != [] {
      RawNamesMention(fs[1..], n);
      FunctionNamesMention(fs[0], n);
      assert forall f :: f in fs <==> f == fs[0] || f in fs[1..];
    }
  }

  /** Only a qualified reference yields a name, and it yields its right-hand
      identifier: a name is an entry reference exactly when some function mentions
      it as `API.<name>` at a recognised position. Unqualified references and
      unrecognised return shapes contribute nothing. */
  lemma ControllerTypesAreQualifiedMentions(fs: seq<FunctionDecl>, n: string)
    ensures n in ControllerTypes(fs) <==> n != "" && exists f :: f in fs && MentionsQualified(f, n)
  {
    RawNamesMention(fs, n);
  }

  /** Each entry reference sits at its first occurrence: entry references are
      listed in the order in which they first occur among the names of the
      parameters and returns, function by function. */
  lemma ControllerTypesFirstOccurrence(fs: seq<FunctionDecl>)
    ensures var r := ControllerTypes(fs);
            forall i, j :: 0 <= i < j < |r| ==>
              FirstIndex(RawNames(fs), Some(r[i])) < FirstIndex(RawNames(fs), Some(r[j]))
  {
    var p := Present(RawNames(fs));
    var r := ControllerTypes(fs);
    DedupFirstOccurrence(p);
    PresentFirstOccurrence(RawNames(fs));
    forall i, j | 0 <= i < j < |r|
      ensures FirstIndex(RawNames(fs), Some(r[i])) < FirstIndex(RawNames(fs), Some(r[j]))
    {
      assert r[i] in r && r[j] in r;
      assert FirstIndex(p, r[i]) < FirstIndex(p, r[j]);
    }
  }

  /** An unqualified parameter reference contributes nothing. */
  lemma UnqualifiedParamIgnored()
    ensures ControllerTypes([FunctionDecl([Reference(Identifier("Foo"))], NoReturn)]) == []
  {
    assert RawNames([FunctionDecl([Reference(Identifier("Foo"))], NoReturn)]) == [None, None];
  }

  /** A doubly nested array parameter contributes nothing. */
  lemma NestedArrayIgnored()
    ensures ControllerTypes([FunctionDecl([ArrayOf(ArrayOf(Reference(Qualified("API", "Foo"))))], ReturnOther)]) == []
  {
  }

  /** A call whose first direct type argument is unqualified contributes nothing,
      and its array-type argument is not tried. */
  lemma FirstTypeArgumentOnly()
    ensures ControllerTypes([FunctionDecl([], ReturnCall([Reference(Identifier("T")),
                                                         ArrayOf(Reference(Qualified("API", "Foo")))]))]) == []
  {
  }

  /** `f<API.Foo[]>(...)` contributes `Foo`. */
  lemma ArrayReturnFollowed()
    ensures ControllerTypes([FunctionDecl([], ReturnCall([ArrayOf(Reference(Qualified("API", "Foo")))]))]) == ["Foo"]
  {
    var f := FunctionDecl([], ReturnCall([ArrayOf(Reference(Qualified("API", "Foo")))]));
    assert RawNames([f]) == [Some("Foo")];
    DedupOfNoDup(["Foo"]);
  }
}
