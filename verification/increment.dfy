/** The incremental generator: it holds the latest typings module and the names
    collected so far from the services that were regenerated, and rebuilds the
    persisted typings module from them. */
module Increment {
  import opened Seqs
  import opened Ast
  import opened Closure
  import opened Rebuild

  /** `typings` is the latest typings module; `dependTypes` the names collected
      so far. */
  datatype Generator = Generator(typings: seq<TypeAlias>, dependTypes: seq<string>)

  /** A fresh generator has collected nothing. */
  function NewGenerator(typings: seq<TypeAlias>): (g: Generator)
    ensures g.typings == typings && g.dependTypes == []
    ensures NoDup(g.dependTypes)
  {
    Generator(typings, [])
  }

  /** Adds the closure of one service's types to the collected names, keeping the
      first occurrence of each name. */
  function CollectDepends(g: Generator, service: seq<FunctionDecl>): (r: Generator)
    ensures r.typings == g.typings
    ensures NoDup(r.dependTypes)
    ensures Elems(r.dependTypes) == Elems(g.dependTypes) + Elems(ControllerTypesDep(service, g.typings))
    ensures NoDup(g.dependTypes) ==> g.dependTypes <= r.dependTypes
  {
    var deps := ControllerTypesDep(service, g.typings);
    DedupKeepsPrefix(g.dependTypes, deps);
    Generator(g.typings, Dedup(g.dependTypes + deps))
  }

  lemma DedupKeepsPrefix(a: seq<string>, b: seq<string>)
    ensures NoDup(a) ==> a <= Dedup(a + b)
  {
    if NoDup(a) {
      DedupAppend(a, b);
    }
  }

  /** With a duplicate-free list of collected names, collecting appends exactly the
      names of the service's closure that were not collected yet, each once, in the
      order of their first occurrence in the closure. */
  lemma CollectAppendsNew(g: Generator, service: seq<FunctionDecl>)
    requires NoDup(g.dependTypes)
    ensures CollectDepends(g, service).dependTypes ==
              g.dependTypes + Dedup(Without(ControllerTypesDep(service, g.typings), g.dependTypes))
  {
    var deps := ControllerTypesDep(service, g.typings);
    DedupAppend(g.dependTypes, deps);
    AddAllAppendsNew(g.dependTypes, deps);
  }

  /** Collecting the same service twice collects nothing more the second time. */
  lemma CollectIdempotent(g: Generator, service: seq<FunctionDecl>)
    ensures CollectDepends(CollectDepends(g, service), service) == CollectDepends(g, service)
  {
    var once := CollectDepends(g, service);
    var deps := ControllerTypesDep(service, g.typings);
    DedupAppend(once.dependTypes, deps);
    assert forall x :: x in deps ==> x in once.dependTypes by {
      forall x | x in deps ensures x in once.dependTypes {
        assert x in Elems(deps);
      }
    }
    AddAllCovered(once.dependTypes, deps);
  }

  /** The names collected from two services do not depend on the order the services
      were collected in (the order of the list does). */
  lemma CollectCommutesAsSet(g: Generator, s1: seq<FunctionDecl>, s2: seq<FunctionDecl>)
    ensures Elems(CollectDepends(CollectDepends(g, s1), s2).dependTypes) ==
              Elems(CollectDepends(CollectDepends(g, s2), s1).dependTypes)
  {
  }

  /** The persisted module rebuilt with the collected names as the live set: sorted
      by name, it keeps the old aliases of names nobody collected, carries the latest
      aliases of the collected names, and holds nothing else. */
  function GenIncrementTypes(g: Generator, olds: seq<TypeAlias>): (r: seq<TypeAlias>)
    ensures SortedByName(r)
    ensures forall d :: d in olds && d.name !in g.dependTypes ==> d in r
    ensures forall d :: d in g.typings && d.name in g.dependTypes ==> d in r
    ensures forall d :: d in r ==> (d in olds && d.name !in g.dependTypes) || (d in g.typings && d.name in g.dependTypes)
  {
    RebuildModule(olds, g.typings, g.dependTypes)
  }

  /** After a service is collected, the rebuilt module carries the latest alias of
      every type that service depends on, keeps every old alias of a type nobody
      depends on, and holds nothing else. */
  lemma CollectedServiceIsCurrent(g: Generator, service: seq<FunctionDecl>, olds: seq<TypeAlias>)
    ensures var r := GenIncrementTypes(CollectDepends(g, service), olds);
      && (forall d :: d in g.typings && d.name in ControllerTypesDep(service, g.typings) ==> d in r)
      && (forall d :: d in olds && d.name !in CollectDepends(g, service).dependTypes ==> d in r)
      && (forall d :: d in r && d.name in ControllerTypesDep(service, g.typings) ==> d in g.typings)
  {
    var c := CollectDepends(g, service);
    var deps := ControllerTypesDep(service, g.typings);
    forall n | n in deps ensures n in c.dependTypes {
      assert n in Elems(deps);
      assert n in Elems(c.dependTypes);
    }
  }

  /** Starting from a fresh generator, every name of every collected service ends up
      in the collected names. */
  lemma {:induction false} CollectAll(typings: seq<TypeAlias>, services: seq<seq<FunctionDecl>>)
    ensures var g := CollectEach(NewGenerator(typings), services);
      && g.typings == typings
      && NoDup(g.dependTypes)
      && forall k, n :: 0 <= k < |services| && n in ControllerTypesDep(services[k], typings) ==> n in g.dependTypes
    decreases |services|
  {
    if services != [] {
      var last := services[|services| - 1];
      var before := services[..|services| - 1];
      CollectAll(typings, before);
      var g := CollectEach(NewGenerator(typings), before);
      var h := CollectDepends(g, last);
      forall k, n | 0 <= k < |services| && n in ControllerTypesDep(services[k], typings)
        ensures n in h.dependTypes
      {
        if k < |services| - 1 {
          assert services[k] == before[k];
          assert n in g.dependTypes;
        } else {
          assert n in Elems(ControllerTypesDep(last, typings));
        }
        assert n in Elems(h.dependTypes);
      }
    }
  }

  /** Collects each service in turn. */
  function CollectEach(g: Generator, services: seq<seq<FunctionDecl>>): Generator
    decreases |services|
  {
    if services == [] then g
    else CollectDepends(CollectEach(g, services[..|services| - 1]), services[|services| - 1])
  }
}
