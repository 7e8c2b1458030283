/** The content differ (`replaceExistStatements`): overwrites the bodies of existing
    aliases whose candidate bodies really changed, and reports those candidates. */
module Differ {
  import opened Wrappers
  import opened Seqs
  import opened Ast

  /** Removes every character that belongs to `drop`, keeping the others in order. */
  function Strip(s: string, drop: set<char>): string {
    if s == [] then []
    else (if s[0] in drop then [] else [s[0]]) + Strip(s[1..], drop)
  }

  /** Exactly the characters outside `drop` survive. */
  lemma {:induction false} StripMembers(s: string, drop: set<char>)
    ensures forall c :: c in Strip(s, drop) <==> c in s && c !in drop
    decreases |s|
  {
    if s != [] {
      StripMembers(s[1..], drop);
      assert forall c :: c in s <==> c == s[0] || c in s[1..];
    }
  }

  /** Characters the old side drops before comparing: space, CR, LF and `;`. */
  const OldDropped: set<char> := {' ', '\r', '\n', ';'}

  /** The candidate side also drops the single quote. */
  const CandidateDropped: set<char> := {' ', '\'', '\r', '\n', ';'}

  /** A candidate body counts as changed when its normal form differs from the
      old body's. Tabs and double quotes are never dropped. */
  predicate Differs(oldText: string, candidateText: string) {
    Strip(oldText, OldDropped) != Strip(candidateText, CandidateDropped)
  }

  /** The candidate with the given name (the last one, should there be several). */
  function CandidateFor(cands: seq<TypeAlias>, name: string): (r: Option<TypeAlias>)
    ensures r.None? <==> name !in Names(cands)
    ensures r.Some? ==> r.value in cands && r.value.name == name
  {
    if cands == [] then None
    else
      var last := cands[|cands| - 1];
      var init := cands[..|cands| - 1];
      assert Names(cands) == Names(init) + [last.name];
      if last.name == name then Some(last) else CandidateFor(init, name)
  }

  /** Reference result: the candidates whose body differs from the first old
      alias of the same name, in candidate order. */
  function ChangedCandidates(olds: seq<TypeAlias>, cands: seq<TypeAlias>): seq<TypeAlias>
    requires forall c :: c in cands ==> c.name in Names(olds)
  {
    if cands == [] then []
    else
      var last := cands[|cands| - 1];
      ChangedCandidates(olds, cands[..|cands| - 1])
        + (if Differs(olds[FirstIndex(Names(olds), last.name)].text, last.text) then [last] else [])
  }

  /** Reference state: the old alias at position `i` takes its candidate's body
      exactly when it is the first old alias of that name and the candidate's
      body differs; every other alias is untouched. */
  function Expected(olds: seq<TypeAlias>, cands: seq<TypeAlias>, i: nat): TypeAlias
    requires i < |olds|
  {
    match CandidateFor(cands, olds[i].name)
    case Some(c) =>
      if FirstIndex(Names(olds), olds[i].name) == i && Differs(olds[i].text, c.text)
      then olds[i].(text := c.text) else olds[i]
    case None => olds[i]
  }

  /** `replaceExistStatements(oldStatements, existStatements)`: `updated` is the old
      list after the in-place overwrites, `replaced` the reported candidates.
      Every candidate name must occur among the old aliases: the source indexes
      the old list with the found position unchecked. */
  method ReplaceExistStatements(olds: seq<TypeAlias>, candidates: seq<TypeAlias>)
    returns (updated: seq<TypeAlias>, replaced: seq<TypeAlias>)
    requires forall c :: c in candidates ==> c.name in Names(olds)
    ensures Names(updated) == Names(olds)
    ensures forall i :: 0 <= i < |olds| ==> updated[i] == olds[i].(text := updated[i].text)
    ensures forall c :: c in replaced ==> c in candidates
    ensures |replaced| <= |candidates|
    ensures NoDup(Names(candidates)) ==> replaced == ChangedCandidates(olds, candidates)
    ensures NoDup(Names(candidates)) ==>
              forall i :: 0 <= i < |olds| ==> updated[i] == Expected(olds, candidates, i)
  {
    updated := olds;
    replaced := [];
    var j := 0;
    ProgressStart(olds);
    assert candidates[..0] == [];
    while j < |candidates|
      invariant j <= |candidates|
      invariant forall c :: c in candidates[..j] ==> c.name in Names(olds)
      invariant Progress(olds, candidates[..j], updated, replaced)
    {
      var c := candidates[j];
      assert candidates[..j + 1] == candidates[..j] + [c];
      assert c in candidates;
      StepShape(olds, candidates[..j], c, updated, replaced);
      StepExact(olds, candidates[..j], c, updated, replaced);
      var (u, r) := ReplaceStep(updated, replaced, c);
      updated, replaced := u, r;
      j := j + 1;
    }
    assert candidates[..j] == candidates;
    ProgressDone(olds, candidates, updated, replaced);
  }

  lemma ProgressStart(olds: seq<TypeAlias>)
    ensures Progress(olds, [], olds, [])
  {
  }

  lemma ProgressDone(olds: seq<TypeAlias>, cands: seq<TypeAlias>, updated: seq<TypeAlias>, replaced: seq<TypeAlias>)
    requires forall c :: c in cands ==> c.name in Names(olds)
    requires Progress(olds, cands, updated, replaced)
    ensures Names(updated) == Names(olds)
    ensures forall i :: 0 <= i < |olds| ==> updated[i] == olds[i].(text := updated[i].text)
    ensures forall c :: c in replaced ==> c in cands
    ensures |replaced| <= |cands|
    ensures NoDup(Names(cands)) ==> replaced == ChangedCandidates(olds, cands)
    ensures NoDup(Names(cands)) ==>
              forall i :: 0 <= i < |olds| ==> updated[i] == Expected(olds, cands, i)
  {
  }

  /** What the loop has established after handling the candidates `done`: names
      kept, only bodies changed, only handled candidates reported, and (under
      unique names) exactly the reference result so far. */
  predicate Progress(olds: seq<TypeAlias>, done: seq<TypeAlias>, updated: seq<TypeAlias>, replaced: seq<TypeAlias>)
    requires forall c :: c in done ==> c.name in Names(olds)
  {
    Shape(olds, done, updated, replaced) && Exact(olds, done, updated, replaced)
  }

  predicate Shape(olds: seq<TypeAlias>, done: seq<TypeAlias>, updated: seq<TypeAlias>, replaced: seq<TypeAlias>) {
    && Names(updated) == Names(olds)
    && (forall i :: 0 <= i < |olds| ==> updated[i] == olds[i].(text := updated[i].text))
    && (forall c :: c in replaced ==> c in done)
    && |replaced| <= |done|
  }

  predicate Exact(olds: seq<TypeAlias>, done: seq<TypeAlias>, updated: seq<TypeAlias>, replaced: seq<TypeAlias>)
    requires forall c :: c in done ==> c.name in Names(olds)
  {
    NoDup(Names(done)) ==>
      && replaced == ChangedCandidates(olds, done)
      && |updated| == |olds|
      && forall i :: 0 <= i < |olds| ==> updated[i] == Expected(olds, done, i)
  }

  /** The loop body on candidate `c`: the first alias with `c`'s name takes `c`'s
      body when the two bodies differ, and `c` is then reported. */
  function ReplaceStep(updated: seq<TypeAlias>, replaced: seq<TypeAlias>, c: TypeAlias): (seq<TypeAlias>, seq<TypeAlias>)
    requires c.name in Names(updated)
  {
    var k := FirstIndex(Names(updated), c.name);
    if Differs(updated[k].text, c.text)
    then (updated[k := updated[k].(text := c.text)], replaced + [c])
    else (updated, replaced)
  }

  lemma StepShape(olds: seq<TypeAlias>, done: seq<TypeAlias>, c: TypeAlias, updated: seq<TypeAlias>, replaced: seq<TypeAlias>)
    requires c.name in Names(olds)
    requires Shape(olds, done, updated, replaced)
    ensures var (u, r) := ReplaceStep(updated, replaced, c); Shape(olds, done + [c], u, r)
  {
    assert forall d :: d in done + [c] <==> d in done || d == c;
  }

  lemma StepExact(olds: seq<TypeAlias>, done: seq<TypeAlias>, c: TypeAlias, updated: seq<TypeAlias>, replaced: seq<TypeAlias>)
    requires c.name in Names(olds)
    requires forall d :: d in done ==> d.name in Names(olds)
    requires Names(updated) == Names(olds)
    requires Exact(olds, done, updated, replaced)
    ensures forall d :: d in done + [c] ==> d.name in Names(olds)
    ensures var (u, r) := ReplaceStep(updated, replaced, c); Exact(olds, done + [c], u, r)
  {
    var cands := done + [c];
    var j := |done|;
    assert cands[..j] == done;
    assert forall d :: d in cands ==> d in done || d == c;
    if NoDup(Names(cands)) {
      var k := FirstIndex(Names(updated), c.name);
      NamesPrefixUnique(done, c);
      assert cands[..j + 1] == cands;
      UniqueStep(olds, cands, j, updated, k);
      assert k == FirstIndex(Names(olds), c.name);
      ChangedSnoc(olds, done, c);
    }
  }

  lemma ChangedSnoc(olds: seq<TypeAlias>, done: seq<TypeAlias>, c: TypeAlias)
    requires c.name in Names(olds)
    requires forall d :: d in done ==> d.name in Names(olds)
    ensures forall d :: d in done + [c] ==> d.name in Names(olds)
    ensures ChangedCandidates(olds, done + [c]) == ChangedCandidates(olds, done)
              + (if Differs(olds[FirstIndex(Names(olds), c.name)].text, c.text) then [c] else [])
  {
    var cands := done + [c];
    assert cands[|cands| - 1] == c && cands[..|cands| - 1] == done;
  }

  lemma NamesPrefixUnique(done: seq<TypeAlias>, c: TypeAlias)
    requires NoDup(Names(done + [c]))
    ensures NoDup(Names(done))
  {
    var cands := done + [c];
    forall s, t | 0 <= s < t < |done| ensures Names(done)[s] != Names(done)[t] {
      assert Names(cands)[s] == Names(done)[s];
      assert Names(cands)[t] == Names(done)[t];
    }
  }

  /** Under unique candidate names, the alias found for the `j`-th candidate still
      has its original body, and only that alias's expected state changes. */
  lemma UniqueStep(olds: seq<TypeAlias>, cands: seq<TypeAlias>, j: nat, cur: seq<TypeAlias>, k: nat)
    requires j < |cands|
    requires NoDup(Names(cands))
    requires forall c :: c in cands ==> c.name in Names(olds)
    requires Names(cur) == Names(olds)
    requires forall i :: 0 <= i < |olds| ==> cur[i] == Expected(olds, cands[..j], i)
    requires k == FirstIndex(Names(cur), cands[j].name)
    ensures k < |olds| && cur[k] == olds[k]
    ensures forall i :: 0 <= i < |olds| && i != k ==> Expected(olds, cands[..j + 1], i) == cur[i]
    ensures Expected(olds, cands[..j + 1], k) ==
              if Differs(olds[k].text, cands[j].text) then olds[k].(text := cands[j].text) else olds[k]
  {
    var c := cands[j];
    assert c in cands;
    var pre, pre' := cands[..j], cands[..j + 1];
    assert pre' == pre + [c];
    assert pre'[..|pre'| - 1] == pre;
    assert c.name !in Names(pre) by {
      forall t | 0 <= t < j ensures Names(pre)[t] != c.name {
        assert Names(cands)[t] == pre[t].name;
        assert Names(cands)[j] == c.name;
      }
    }
    assert CandidateFor(pre, c.name).None?;
    assert olds[k].name == c.name;
    assert cur[k] == olds[k];
    forall i | 0 <= i < |olds| && i != k
      ensures Expected(olds, pre', i) == cur[i]
    {
      if olds[i].name == c.name {
        assert FirstIndex(Names(olds), olds[i].name) == k;
      } else {
        assert CandidateFor(pre', olds[i].name) == CandidateFor(pre, olds[i].name);
      }
    }
  }

  /** Removing two sets of characters one after the other removes their union. */
  lemma {:induction false} StripTwice(s: string, a: set<char>, b: set<char>)
    ensures Strip(Strip(s, a), b) == Strip(s, a + b)
    decreases |s|
  {
    if s != [] {
      StripTwice(s[1..], a, b);
      var head := if s[0] in a then [] else [s[0]];
      assert Strip(head + Strip(s[1..], a), b) == Strip(head, b) + Strip(Strip(s[1..], a), b) by {
        StripConcat(head, Strip(s[1..], a), b);
      }
    }
  }

  lemma {:induction false} StripConcat(s: string, t: string, d: set<char>)
    ensures Strip(s + t, d) == Strip(s, d) + Strip(t, d)
    decreases |s|
  {
    if s == [] {
      assert s + t == t;
    } else {
      assert (s + t)[1..] == s[1..] + t;
      StripConcat(s[1..], t, d);
    }
  }

  /** Formatting changes are never reported: when the two bodies agree after
      dropping spaces, CR, LF, `;` and single quotes, and the old body has no
      single quote, the candidate is not a change. */
  lemma FormattingNotReported(oldText: string, candidateText: string)
    requires Strip(oldText, CandidateDropped) == Strip(candidateText, CandidateDropped)
    requires '\'' !in oldText
    ensures !Differs(oldText, candidateText)
  {
    StripTwice(oldText, OldDropped, {'\''});
    assert OldDropped + {'\''} == CandidateDropped;
    var o := Strip(oldText, OldDropped);
    StripMembers(oldText, OldDropped);
    assert '\'' !in o;
    StripNothing(o, {'\''});
  }

  lemma {:induction false} StripNothing(s: string, d: set<char>)
    requires forall c :: c in s ==> c !in d
    ensures Strip(s, d) == s
    decreases |s|
  {
    if s != [] {
      StripNothing(s[1..], d);
    }
  }

  /** The normalisation is asymmetric and incomplete: a body holding a single quote
      differs from itself, and a tab is a change. */
  lemma NormalisationGaps()
    ensures Differs("'a'", "'a'")
    ensures Differs("a", "\ta")
  {
    assert Strip("'", OldDropped) == "'";
    assert Strip("a'", OldDropped) == "a'";
    assert Strip("'a'", OldDropped) == "'a'";
    assert Strip("'", CandidateDropped) == "";
    assert Strip("a'", CandidateDropped) == "a";
    assert Strip("'a'", CandidateDropped) == "a";
    assert Strip("a", OldDropped) == "a";
    assert Strip("a", CandidateDropped) == "a";
    assert Strip("\ta", CandidateDropped) == "\ta";
  }
}
