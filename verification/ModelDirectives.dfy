/**
  The directives of models.  Two of them may be repeated; the diff matches those
  with their arguments, but the directives of a new model are created by name.
 */
module ModelDirectives {
  import opened Wrappers
  import opened Names
  import opened Datamodels
  import opened DatamodelDiffer
  import opened DirectiveRoundTrip

  // ----- the same directive -----

  ghost predicate ArgumentSetsEqual(d: Directive, e: Directive) {
    forall a :: a in d.arguments <==> a in e.arguments
  }

  lemma {:induction false} SameIffSets(d: Directive, e: Directive)
    requires ArgumentsDistinct(d.arguments) && ArgumentsDistinct(e.arguments)
    ensures SameArguments(d.arguments, e.arguments) <==> ArgumentSetsEqual(d, e)
  {
    if SameArguments(d.arguments, e.arguments) {
      forall a | a in d.arguments ensures a in e.arguments {
        ArgumentFound(d.arguments, a);
        assert ValueAt(d.arguments, a.name) == ValueAt(e.arguments, a.name);
        assert a == Argument(a.name, a.value);
      }
      forall a | a in e.arguments ensures a in d.arguments {
        ArgumentFound(e.arguments, a);
        assert ValueAt(d.arguments, a.name) == ValueAt(e.arguments, a.name);
        assert a == Argument(a.name, a.value);
      }
    }
    if ArgumentSetsEqual(d, e) {
      forall n ensures ValueAt(d.arguments, n) == ValueAt(e.arguments, n) {
        var a := FindArgument(d.arguments, n);
        if a.Some? {
          assert a.value in e.arguments;
          ArgumentFound(e.arguments, a.value);
        }
      }
    }
  }

  function ArgumentSet(args: seq<Argument>): (r: set<Argument>)
    ensures forall a :: a in r <==> a in args
  {
    if args == [] then {} else {args[0]} + ArgumentSet(args[1..])
  }

  lemma {:induction false} DistinctCount(args: seq<Argument>)
    requires ArgumentsDistinct(args)
    ensures |ArgumentSet(args)| == |args|
  {
    if args != [] {
      DistinctCount(args[1..]);
      assert args[0] !in ArgumentSet(args[1..]);
    }
  }

  /** Of directives with distinct arguments, the identical ones are the same ones. */
  lemma {:induction false} IdenticalIffSame(d: Directive, e: Directive)
    requires ArgumentsDistinct(d.arguments) && ArgumentsDistinct(e.arguments)
    ensures Identical(d, e) <==> SameDirective(d, e)
    ensures Identical(d, e) <==> Identical(e, d)
  {
    DistinctCount(d.arguments);
    DistinctCount(e.arguments);
    SameIffSets(d, e);
    SubsetsEqual(d, e);
    SubsetsEqual(e, d);
  }

  lemma {:induction false} SubsetsEqual(d: Directive, e: Directive)
    requires |ArgumentSet(d.arguments)| == |d.arguments| && |ArgumentSet(e.arguments)| == |e.arguments|
    ensures |d.arguments| == |e.arguments| && (forall a :: a in d.arguments ==> a in e.arguments) <==> ArgumentSetsEqual(d, e)
  {
    var x, y := ArgumentSet(d.arguments), ArgumentSet(e.arguments);
    if |d.arguments| == |e.arguments| && (forall a :: a in d.arguments ==> a in e.arguments) {
      assert x <= y;
      SubsetOfSize(x, y);
    }
    if ArgumentSetsEqual(d, e) {
      assert x == y;
    }
  }

  lemma {:induction false} SubsetOfSize(x: set<Argument>, y: set<Argument>)
    requires x <= y && |x| == |y|
    ensures x == y
  {
    assert |y - x| == |y| - |x|;
    assert y - x == {};
  }

  // ----- well-formed lists -----

  ghost predicate NoneIdentical(d: Directive, ds: seq<Directive>) {
    forall e :: e in ds ==> !SameDirective(d, e)
  }

  ghost predicate NoDuplicates(ds: seq<Directive>) {
    ds != [] ==> NoneIdentical(ds[0], ds[1..]) && NoDuplicates(ds[1..])
  }

  /** Regular directives have distinct names, repeated ones differ in their arguments. */
  ghost predicate ModelDirectivesOk(ds: seq<Directive>) {
    ArgumentsOk(ds) && DirectivesDistinct(Regular(ds)) && NoDuplicates(Repeated(ds))
  }

  // ----- changes to regular directives leave repeated ones alone -----

  predicate RepeatedName(n: Name) {
    n == "unique" || n == "index"
  }

  lemma {:induction false} FilterConcat(xs: seq<Directive>, ys: seq<Directive>)
    ensures Regular(xs + ys) == Regular(xs) + Regular(ys)
    ensures Repeated(xs + ys) == Repeated(xs) + Repeated(ys)
  {
    hide IsRepeated;
    if xs == [] {
      assert xs + ys == ys;
    } else {
      assert (xs + ys)[0] == xs[0] && (xs + ys)[1..] == xs[1..] + ys;
      FilterConcat(xs[1..], ys);
      assert [xs[0]] + Regular(xs[1..]) + Regular(ys) == [xs[0]] + (Regular(xs[1..]) + Regular(ys));
      assert [xs[0]] + Repeated(xs[1..]) + Repeated(ys) == [xs[0]] + (Repeated(xs[1..]) + Repeated(ys));
    }
  }

  lemma {:induction false} FilterCreate(ds: seq<Directive>, d: Directive)
    ensures Regular(ds + [d]) == if IsRepeated(d) then Regular(ds) else Regular(ds) + [d]
    ensures Repeated(ds + [d]) == if IsRepeated(d) then Repeated(ds) + [d] else Repeated(ds)
  {
    FilterConcat(ds, [d]);
    assert [d][1..] == [];
    assert Regular([d]) == if IsRepeated(d) then [] else [d];
    assert Repeated([d]) == if IsRepeated(d) then [d] else [];
  }

  lemma {:induction false} FilterDelete(ds: seq<Directive>, n: Name, args: Option<seq<Argument>>)
    ensures Regular(WithoutMatching(ds, n, args)) ==
            if RepeatedName(n) then Regular(ds) else WithoutMatching(Regular(ds), n, args)
    ensures Repeated(WithoutMatching(ds, n, args)) ==
            if RepeatedName(n) then WithoutMatching(Repeated(ds), n, args) else Repeated(ds)
  {
    if ds != [] {
      FilterDelete(ds[1..], n, args);
      var rest := WithoutMatching(ds[1..], n, args);
      assert ([ds[0]] + rest)[1..] == rest;
      assert ([ds[0]] + Regular(ds[1..]))[1..] == Regular(ds[1..]);
      assert ([ds[0]] + Repeated(ds[1..]))[1..] == Repeated(ds[1..]);
    }
  }

  lemma {:induction false} FilterChange(ds: seq<Directive>, c: DirectiveStep)
    requires OnArgument(c) && !RepeatedName(c.name)
    ensures Regular(ChangeFirst(ds, c)) == ChangeFirst(Regular(ds), c)
    ensures Repeated(ChangeFirst(ds, c)) == Repeated(ds)
    ensures FindDirective(Regular(ds), c.name).Some? <==> FindDirective(ds, c.name).Some?
  {
    if ds != [] {
      FilterChange(ds[1..], c);
      var rest := ChangeFirst(ds[1..], c);
      assert ([ds[0]] + rest)[1..] == rest;
      var first := ds[0].(arguments := ChangeArguments(ds[0].arguments, c));
      assert ([first] + ds[1..])[1..] == ds[1..];
      assert ([ds[0]] + Regular(ds[1..]))[1..] == Regular(ds[1..]);
    }
  }

  lemma {:induction false} RegularStep(ds: seq<Directive>, c: DirectiveStep)
    requires !RepeatedName(c.name)
    ensures ApplyToDirectives(ds, c).Some? <==> ApplyToDirectives(Regular(ds), c).Some?
    ensures ApplyToDirectives(ds, c).Some? ==>
              && Regular(ApplyToDirectives(ds, c).value) == ApplyToDirectives(Regular(ds), c).value
              && Repeated(ApplyToDirectives(ds, c).value) == Repeated(ds)
  {
    match c
    case CreateDirective(n, args) => FilterCreate(ds, Directive(n, if args.Some? then args.value else []));
    case DeleteDirective(n, args) => FilterDelete(ds, n, args);
    case _ => FilterChange(ds, c);
  }

  lemma {:induction false} RegularRun(ds: seq<Directive>, changes: seq<DirectiveStep>)
    requires forall c :: c in changes ==> !RepeatedName(c.name)
    requires RunOnDirectives(Regular(ds), changes).Some?
    ensures var r := RunOnDirectives(ds, changes);
            && r.Some?
            && Regular(r.value) == RunOnDirectives(Regular(ds), changes).value
            && Repeated(r.value) == Repeated(ds)
    decreases |changes|
  {
    if changes != [] {
      assert changes[0] in changes && forall c :: c in changes[1..] ==> c in changes;
      RegularStep(ds, changes[0]);
      RegularRun(ApplyToDirectives(ds, changes[0]).value, changes[1..]);
    }
  }

  lemma {:induction false} RunDirectivesConcat(ds: seq<Directive>, xs: seq<DirectiveStep>, ys: seq<DirectiveStep>)
    ensures RunOnDirectives(ds, xs + ys) ==
            if RunOnDirectives(ds, xs).Some? then RunOnDirectives(RunOnDirectives(ds, xs).value, ys) else None
    decreases |xs|
  {
    if xs == [] {
      assert xs + ys == ys;
    } else {
      assert (xs + ys)[0] == xs[0] && (xs + ys)[1..] == xs[1..] + ys;
      var ds' := ApplyToDirectives(ds, xs[0]);
      if ds'.Some? {
        RunDirectivesConcat(ds'.value, xs[1..], ys);
      }
    }
  }

  // ----- repeated directives -----

  function NewRepeated(ps: seq<Directive>, qs: seq<Directive>): (r: seq<Directive>)
    ensures forall q :: q in r <==> q in qs && !(exists p :: p in ps && Identical(p, q))
  {
    if qs == [] then []
    else if exists p :: p in ps && Identical(p, qs[0]) then NewRepeated(ps, qs[1..])
    else [qs[0]] + NewRepeated(ps, qs[1..])
  }

  lemma {:induction false} RepeatedCreated(ds: seq<Directive>, ps: seq<Directive>, qs: seq<Directive>)
    ensures RunOnDirectives(ds, RepeatedCreations(ps, qs)) == Some(ds + NewRepeated(ps, qs))
    decreases |qs|
  {
    if qs == [] {
      assert ds + [] == ds;
    } else if exists p :: p in ps && Identical(p, qs[0]) {
      RepeatedCreated(ds, ps, qs[1..]);
    } else {
      var rest := RepeatedCreations(ps, qs[1..]);
      assert ([CreateDirective(qs[0].name, Some(qs[0].arguments))] + rest)[1..] == rest;
      RepeatedCreated(ds + [qs[0]], ps, qs[1..]);
      assert ds + [qs[0]] + NewRepeated(ps, qs[1..]) == ds + ([qs[0]] + NewRepeated(ps, qs[1..]));
    }
  }

  predicate Doomed(d: Directive, ps: seq<Directive>, qs: seq<Directive>) {
    exists p :: p in ps && !(exists q :: q in qs && Identical(p, q)) && Matches(d, p.name, Some(p.arguments))
  }

  /** The list without the directives that a deletion step means. */
  function Surviving(ds: seq<Directive>, ps: seq<Directive>, qs: seq<Directive>): (r: seq<Directive>)
    ensures forall d :: d in r <==> d in ds && !Doomed(d, ps, qs)
  {
    if ds == [] then []
    else if Doomed(ds[0], ps, qs) then Surviving(ds[1..], ps, qs)
    else [ds[0]] + Surviving(ds[1..], ps, qs)
  }

  lemma {:induction false} SurvivingNothing(ds: seq<Directive>, qs: seq<Directive>)
    ensures Surviving(ds, [], qs) == ds
  {
    if ds != [] {
      SurvivingNothing(ds[1..], qs);
    }
  }

  lemma {:induction false} SurvivingMore(ds: seq<Directive>, ps: seq<Directive>, qs: seq<Directive>)
    requires ps != []
    ensures Surviving(ds, ps, qs) ==
            if exists q :: q in qs && Identical(ps[0], q) then Surviving(ds, ps[1..], qs)
            else Surviving(WithoutMatching(ds, ps[0].name, Some(ps[0].arguments)), ps[1..], qs)
  {
    if ds != [] {
      SurvivingMore(ds[1..], ps, qs);
      DoomedMore(ds[0], ps, qs);
      hide Doomed, Matches, Identical;
      var rest := WithoutMatching(ds[1..], ps[0].name, Some(ps[0].arguments));
      assert ([ds[0]] + rest)[1..] == rest;
    }
  }

  lemma {:induction false} DoomedMore(d: Directive, ps: seq<Directive>, qs: seq<Directive>)
    requires ps != []
    ensures Doomed(d, ps, qs) <==>
            Doomed(d, ps[1..], qs)
            || (!(exists q :: q in qs && Identical(ps[0], q)) && Matches(d, ps[0].name, Some(ps[0].arguments)))
  {
    assert ps == [ps[0]] + ps[1..];
  }

  lemma {:induction false} RepeatedDeleted(ds: seq<Directive>, ps: seq<Directive>, qs: seq<Directive>)
    ensures RunOnDirectives(ds, RepeatedDeletions(ps, qs)) == Some(Surviving(ds, ps, qs))
    decreases |ps|
  {
    if ps == [] {
      SurvivingNothing(ds, qs);
    } else {
      SurvivingMore(ds, ps, qs);
      if exists q :: q in qs && Identical(ps[0], q) {
        RepeatedDeleted(ds, ps[1..], qs);
      } else {
        var rest := RepeatedDeletions(ps[1..], qs);
        assert ([DeleteDirective(ps[0].name, Some(ps[0].arguments))] + rest)[1..] == rest;
        RepeatedDeleted(WithoutMatching(ds, ps[0].name, Some(ps[0].arguments)), ps[1..], qs);
      }
    }
  }

  // ----- lists of equal length -----

  /** The same directives, one for one. */
  ghost predicate SameDirectives(ds: seq<Directive>, qs: seq<Directive>) {
    DirectivesAgree(ds, qs) && |ds| == |qs|
  }

  ghost predicate PairwiseDifferent(ds: seq<Directive>) {
    forall i, j :: 0 <= i < j < |ds| ==> !SameDirective(ds[i], ds[j])
  }

  lemma {:induction false} NoDuplicatesPairwise(ds: seq<Directive>)
    requires NoDuplicates(ds)
    ensures PairwiseDifferent(ds)
  {
    if ds != [] {
      NoDuplicatesPairwise(ds[1..]);
      forall i, j | 0 <= i < j < |ds| ensures !SameDirective(ds[i], ds[j]) {
        if i == 0 {
          assert ds[j] == ds[1..][j - 1];
        } else {
          assert ds[i] == ds[1..][i - 1] && ds[j] == ds[1..][j - 1];
        }
      }
    }
  }

  lemma {:induction false} DistinctPairwise(ds: seq<Directive>)
    requires DirectivesDistinct(ds)
    ensures PairwiseDifferent(ds)
  {
    if ds != [] {
      DistinctPairwise(ds[1..]);
      forall i, j | 0 <= i < j < |ds| ensures !SameDirective(ds[i], ds[j]) {
        if i == 0 {
          assert ds[j] == ds[1..][j - 1];
          assert ds[j].name != ds[0].name;
        } else {
          assert ds[i] == ds[1..][i - 1] && ds[j] == ds[1..][j - 1];
        }
      }
    }
  }

  /** If every directive of one list has its own in another, the other is no shorter. */
  lemma {:induction false} NoShorter(xs: seq<Directive>, ys: seq<Directive>)
    requires PairwiseDifferent(xs) && forall x :: x in xs ==> Has(ys, x)
    ensures |xs| <= |ys|
    decreases |xs|
  {
    if xs != [] {
      assert xs[0] in xs;
      var y :| y in ys && SameDirective(y, xs[0]);
      var i :| 0 <= i < |ys| && ys[i] == y;
      var ys' := ys[..i] + ys[i + 1..];
      assert PairwiseDifferent(xs[1..]) by {
        forall k, l | 0 <= k < l < |xs[1..]| ensures !SameDirective(xs[1..][k], xs[1..][l]) {
          assert xs[1..][k] == xs[k + 1] && xs[1..][l] == xs[l + 1];
        }
      }
      forall x | x in xs[1..] ensures Has(ys', x) {
        var k :| 0 <= k < |xs[1..]| && xs[1..][k] == x;
        assert x == xs[k + 1] && x in xs;
        var z :| z in ys && SameDirective(z, x);
        if z == y {
          assert SameDirective(xs[0], x);
        }
        assert z in ys';
      }
      NoShorter(xs[1..], ys');
    }
  }

  lemma {:induction false} AgreeSameLength(xs: seq<Directive>, ys: seq<Directive>)
    requires PairwiseDifferent(xs) && PairwiseDifferent(ys) && DirectivesAgree(xs, ys)
    ensures |xs| == |ys|
  {
    NoShorter(xs, ys);
    NoShorter(ys, xs);
  }

  // ----- an updated model -----

  /** What the steps leave of the repeated directives. */
  function RepeatedResult(ps: seq<Directive>, qs: seq<Directive>): seq<Directive> {
    Surviving(ps + NewRepeated(ps, qs), ps, qs)
  }

  lemma {:induction false} DoomedIff(ps: seq<Directive>, qs: seq<Directive>, d: Directive)
    requires ArgumentsOk(ps) && ArgumentsOk(qs) && NoDuplicates(ps) && (d in ps || d in qs)
    ensures d in ps ==> (Doomed(d, ps, qs) <==> !(exists q :: q in qs && Identical(d, q)))
    ensures d in qs ==> !Doomed(d, ps, qs)
  {
    if d in ps {
      if !(exists q :: q in qs && Identical(d, q)) {
        assert Matches(d, d.name, Some(d.arguments));
      }
      if Doomed(d, ps, qs) {
        var p :| p in ps && !(exists q :: q in qs && Identical(p, q)) && Matches(d, p.name, Some(p.arguments));
        assert Identical(d, p);
        IdenticalIffSame(d, p);
        OnlyOne(ps, d, p);
      }
    }
    if d in qs && Doomed(d, ps, qs) {
      var p :| p in ps && !(exists q :: q in qs && Identical(p, q)) && Matches(d, p.name, Some(p.arguments));
      assert Identical(d, p);
      IdenticalIffSame(d, p);
    }
  }

  lemma {:induction false} OnlyOne(ds: seq<Directive>, d: Directive, e: Directive)
    requires NoDuplicates(ds) && d in ds && e in ds && SameDirective(d, e)
    ensures d == e
  {
    if d != ds[0] && e != ds[0] {
      OnlyOne(ds[1..], d, e);
    } else if d != e {
      SameSymmetric(d, e);
    }
  }

  lemma {:induction false} SurvivingNoDuplicates(ds: seq<Directive>, ps: seq<Directive>, qs: seq<Directive>)
    requires NoDuplicates(ds)
    ensures NoDuplicates(Surviving(ds, ps, qs))
  {
    if ds != [] {
      SurvivingNoDuplicates(ds[1..], ps, qs);
      var rest := Surviving(ds[1..], ps, qs);
      assert ([ds[0]] + rest)[1..] == rest;
    }
  }

  lemma {:induction false} NewNoDuplicates(ps: seq<Directive>, qs: seq<Directive>)
    requires NoDuplicates(qs)
    ensures NoDuplicates(NewRepeated(ps, qs))
  {
    if qs != [] {
      NewNoDuplicates(ps, qs[1..]);
      var rest := NewRepeated(ps, qs[1..]);
      assert ([qs[0]] + rest)[1..] == rest;
    }
  }

  lemma {:induction false} ConcatNoDuplicates(xs: seq<Directive>, ys: seq<Directive>)
    requires NoDuplicates(xs) && NoDuplicates(ys) && forall x :: x in xs ==> NoneIdentical(x, ys)
    ensures NoDuplicates(xs + ys)
  {
    if xs == [] {
      assert xs + ys == ys;
    } else {
      assert (xs + ys)[0] == xs[0] && (xs + ys)[1..] == xs[1..] + ys;
      assert xs[0] in xs;
      ConcatNoDuplicates(xs[1..], ys);
    }
  }

  lemma {:induction false} RepeatedReaches(ps: seq<Directive>, qs: seq<Directive>)
    requires ArgumentsOk(ps) && ArgumentsOk(qs) && NoDuplicates(ps) && NoDuplicates(qs)
    ensures var r := RepeatedResult(ps, qs); ArgumentsOk(r) && NoDuplicates(r) && DirectivesAgree(r, qs)
  {
    var added, r := NewRepeated(ps, qs), RepeatedResult(ps, qs);
    NewNoDuplicates(ps, qs);
    forall p, q | p in ps && q in added ensures !SameDirective(p, q) {
      IdenticalIffSame(p, q);
    }
    ConcatNoDuplicates(ps, added);
    SurvivingNoDuplicates(ps + added, ps, qs);
    forall d | d in r ensures Has(qs, d) {
      assert d in ps || d in added;
      DoomedIff(ps, qs, d);
      if d in ps {
        var q :| q in qs && Identical(d, q);
        IdenticalIffSame(d, q);
        SameSymmetric(d, q);
      } else {
        assert d in qs && SameDirective(d, d);
      }
    }
    forall q | q in qs ensures Has(r, q) {
      if exists p :: p in ps && Identical(p, q) {
        var p :| p in ps && Identical(p, q);
        DoomedIff(ps, qs, p);
        IdenticalIffSame(p, q);
        assert p in r;
      } else {
        assert q in added;
        DoomedIff(ps, qs, q);
        assert q in r && SameDirective(q, q);
      }
    }
  }

  lemma {:induction false} ChangesAreRegular(ps: seq<Directive>, qs: seq<Directive>, c: DirectiveStep)
    requires DirectivesDistinct(Regular(ps)) && DirectivesDistinct(Regular(qs))
    requires c in DirectiveChanges(Regular(ps), Regular(qs))
    ensures !RepeatedName(c.name)
  {
    ChangesNamed(Regular(ps), Regular(qs), c.name);
    NamedMember(c, DirectiveChanges(Regular(ps), Regular(qs)));
  }

  lemma {:induction false} NamedMember(c: DirectiveStep, changes: seq<DirectiveStep>)
    requires c in changes
    ensures c in Named(c.name, changes)
  {
    if changes[0] != c {
      NamedMember(c, changes[1..]);
    }
  }

  lemma {:induction false} PartsAgree(r: seq<Directive>, qs: seq<Directive>)
    requires DirectivesAgree(Regular(r), Regular(qs)) && DirectivesAgree(Repeated(r), Repeated(qs))
    ensures DirectivesAgree(r, qs)
  {
    hide Has, IsRepeated;
    forall d | d in r ensures Has(qs, d) {
      if IsRepeated(d) {
        HasMore(Repeated(qs), qs, d);
      } else {
        HasMore(Regular(qs), qs, d);
      }
    }
    forall q | q in qs ensures Has(r, q) {
      if IsRepeated(q) {
        HasMore(Repeated(r), r, q);
      } else {
        HasMore(Regular(r), r, q);
      }
    }
  }

  lemma {:induction false} HasMore(xs: seq<Directive>, ys: seq<Directive>, d: Directive)
    requires Has(xs, d) && forall x :: x in xs ==> x in ys
    ensures Has(ys, d)
  {
  }

  lemma {:induction false} FilterLength(ds: seq<Directive>)
    ensures |ds| == |Regular(ds)| + |Repeated(ds)|
  {
    if ds != [] {
      FilterLength(ds[1..]);
    }
  }

  lemma {:induction false} AllRepeated(ds: seq<Directive>)
    requires forall d :: d in ds ==> IsRepeated(d)
    ensures Repeated(ds) == ds && Regular(ds) == []
  {
    if ds != [] {
      assert ds[0] in ds;
      AllRepeated(ds[1..]);
    }
  }

  lemma {:induction false} SurvivingParts(ds: seq<Directive>, ps: seq<Directive>, qs: seq<Directive>)
    requires forall p :: p in ps ==> IsRepeated(p)
    ensures Regular(Surviving(ds, ps, qs)) == Regular(ds)
    ensures Repeated(Surviving(ds, ps, qs)) == Surviving(Repeated(ds), ps, qs)
  {
    if ds != [] {
      SurvivingParts(ds[1..], ps, qs);
      assert Doomed(ds[0], ps, qs) ==> IsRepeated(ds[0]);
      hide Doomed, IsRepeated;
      var rest := Surviving(ds[1..], ps, qs);
      assert ([ds[0]] + rest)[1..] == rest;
      assert ([ds[0]] + Repeated(ds[1..]))[1..] == Repeated(ds[1..]);
    }
  }

  /** The directive steps of a matched model lead to the directives of its match. */
  lemma {:induction false} ModelDirectivesRoundTrip(ps: seq<Directive>, qs: seq<Directive>) returns (r: seq<Directive>)
    requires ModelDirectivesOk(ps) && ModelDirectivesOk(qs)
    ensures RunOnDirectives(ps, ModelDirectiveChanges(ps, qs)) == Some(r)
    ensures ModelDirectivesOk(r) && SameDirectives(r, qs)
  {
    var P, Q := Repeated(ps), Repeated(qs);
    var a, b, c := DirectiveChanges(Regular(ps), Regular(qs)), RepeatedCreations(P, Q), RepeatedDeletions(P, Q);
    var regular := DirectivesRoundTrip(Regular(ps), Regular(qs));
    forall x | x in a ensures !RepeatedName(x.name) {
      ChangesAreRegular(ps, qs, x);
    }
    RegularRun(ps, a);
    var r1 := RunOnDirectives(ps, a).value;
    RepeatedCreated(r1, P, Q);
    var r2 := r1 + NewRepeated(P, Q);
    RepeatedDeleted(r2, P, Q);
    r := Surviving(r2, P, Q);
    RunDirectivesConcat(ps, a, b);
    RunDirectivesConcat(ps, a + b, c);
    FilterConcat(r1, NewRepeated(P, Q));
    AllRepeated(NewRepeated(P, Q));
    SurvivingParts(r2, P, Q);
    assert Regular(r) == regular + [] == regular && Repeated(r) == RepeatedResult(P, Q);
    RepeatedReaches(P, Q);
    ResultOk(r, qs);
  }

  lemma {:induction false} ResultOk(r: seq<Directive>, qs: seq<Directive>)
    requires ModelDirectivesOk(qs)
    requires ArgumentsOk(Regular(r)) && DirectivesDistinct(Regular(r)) && DirectivesAgree(Regular(r), Regular(qs))
    requires ArgumentsOk(Repeated(r)) && NoDuplicates(Repeated(r)) && DirectivesAgree(Repeated(r), Repeated(qs))
    ensures ModelDirectivesOk(r) && SameDirectives(r, qs)
  {
    PartsAgree(r, qs);
    DistinctPairwise(Regular(r));
    DistinctPairwise(Regular(qs));
    AgreeSameLength(Regular(r), Regular(qs));
    NoDuplicatesPairwise(Repeated(r));
    NoDuplicatesPairwise(Repeated(qs));
    AgreeSameLength(Repeated(r), Repeated(qs));
    FilterLength(r);
    FilterLength(qs);
    forall d | d in r ensures ArgumentsDistinct(d.arguments) {
      assert d in Regular(r) || d in Repeated(r);
    }
  }

  // ----- a new model: directives are created by name -----

  /** Arguments for a name all go to the first directive of that name. */
  function AddToFirst(ds: seq<Directive>, n: Name, args: seq<Argument>): seq<Directive> {
    if ds == [] then []
    else if ds[0].name == n then [ds[0].(arguments := ds[0].arguments + args)] + ds[1..]
    else [ds[0]] + AddToFirst(ds[1..], n, args)
  }

  lemma {:induction false} AddNothing(ds: seq<Directive>, n: Name)
    ensures AddToFirst(ds, n, []) == ds
  {
    if ds != [] {
      AddNothing(ds[1..], n);
      assert ds[0].arguments + [] == ds[0].arguments;
    }
  }

  lemma {:induction false} AddOneByOne(ds: seq<Directive>, n: Name, a: Argument, args: seq<Argument>)
    ensures AddToFirst(ChangeFirst(ds, CreateArgument(n, a.name, a.value)), n, args) == AddToFirst(ds, n, [a] + args)
    ensures FindDirective(ChangeFirst(ds, CreateArgument(n, a.name, a.value)), n).Some? <==> FindDirective(ds, n).Some?
  {
    if ds != [] {
      AddOneByOne(ds[1..], n, a, args);
      var c := CreateArgument(n, a.name, a.value);
      if ds[0].name == n {
        var first := ds[0].(arguments := ds[0].arguments + [a]);
        assert ChangeFirst(ds, c) == [first] + ds[1..] && ([first] + ds[1..])[1..] == ds[1..];
        assert ds[0].arguments + [a] + args == ds[0].arguments + ([a] + args);
      } else {
        assert ([ds[0]] + ChangeFirst(ds[1..], c))[1..] == ChangeFirst(ds[1..], c);
      }
    }
  }

  lemma {:induction false} ArgumentsGoToFirst(ds: seq<Directive>, n: Name, args: seq<Argument>)
    requires FindDirective(ds, n).Some?
    ensures RunOnDirectives(ds, ArgumentCreations(n, [], args)) == Some(AddToFirst(ds, n, args))
    decreases |args|
  {
    if args == [] {
      AddNothing(ds, n);
    } else {
      var c, rest := CreateArgument(n, args[0].name, args[0].value), ArgumentCreations(n, [], args[1..]);
      assert ([c] + rest)[1..] == rest;
      AddOneByOne(ds, n, args[0], args[1..]);
      assert [args[0]] + args[1..] == args;
      ArgumentsGoToFirst(ChangeFirst(ds, c), n, args[1..]);
    }
  }

  function CreatedNext(ds: seq<Directive>, d: Directive): seq<Directive> {
    AddToFirst(ds + [Directive(d.name, [])], d.name, d.arguments)
  }

  lemma {:induction false} CreationRuns(ds: seq<Directive>, d: Directive)
    ensures RunOnDirectives(ds, DirectiveCreation(d)) == Some(CreatedNext(ds, d))
  {
    var ds', args := ds + [Directive(d.name, [])], ArgumentCreations(d.name, [], d.arguments);
    assert DirectiveCreation(d)[1..] == args;
    assert ds'[|ds|] in ds';
    ArgumentsGoToFirst(ds', d.name, d.arguments);
  }

  function CreatedAll(ds: seq<Directive>, qs: seq<Directive>): (r: seq<Directive>)
    decreases |qs|
  {
    if qs == [] then ds else CreatedAll(CreatedNext(ds, qs[0]), qs[1..])
  }

  lemma {:induction false} CreationsRun(ds: seq<Directive>, qs: seq<Directive>)
    ensures RunOnDirectives(ds, DirectiveCreations([], qs)) == Some(CreatedAll(ds, qs))
    decreases |qs|
  {
    if qs != [] {
      CreationRuns(ds, qs[0]);
      RunDirectivesConcat(ds, DirectiveCreation(qs[0]), DirectiveCreations([], qs[1..]));
      CreationsRun(CreatedNext(ds, qs[0]), qs[1..]);
    }
  }

  // ----- where the arguments end up -----

  /** Of the directives of one name only the first has arguments. */
  ghost predicate FirstHasAll(ds: seq<Directive>) {
    forall i, j :: 0 <= i < j < |ds| && ds[i].name == ds[j].name ==> ds[j].arguments == []
  }

  /** At most one directive of a name has arguments. */
  ghost predicate OneWithArguments(ds: seq<Directive>) {
    forall i, j :: 0 <= i < j < |ds| && ds[i].name == ds[j].name ==> ds[i].arguments == [] || ds[j].arguments == []
  }

  lemma {:induction false} AddedWhere(ds: seq<Directive>, n: Name, args: seq<Argument>) returns (k: nat)
    requires FindDirective(ds, n).Some?
    ensures k < |ds| && ds[k].name == n && forall i :: 0 <= i < k ==> ds[i].name != n
    ensures AddToFirst(ds, n, args) == ds[k := ds[k].(arguments := ds[k].arguments + args)]
  {
    if ds[0].name == n {
      k := 0;
    } else {
      var l := AddedWhere(ds[1..], n, args);
      k := l + 1;
      forall i | 0 <= i < k ensures ds[i].name != n {
        assert i > 0 ==> ds[i] == ds[1..][i - 1];
      }
      assert ds[k] == ds[1..][l];
      assert [ds[0]] + ds[1..][l := ds[k].(arguments := ds[k].arguments + args)] ==
             ds[k := ds[k].(arguments := ds[k].arguments + args)];
    }
  }

  lemma {:induction false} NextWhere(ds: seq<Directive>, d: Directive) returns (k: nat)
    ensures k <= |ds| && (k < |ds| ==> ds[k].name == d.name) && forall i :: 0 <= i < k ==> ds[i].name != d.name
    ensures CreatedNext(ds, d) ==
            if k < |ds| then ds[k := ds[k].(arguments := ds[k].arguments + d.arguments)] + [Directive(d.name, [])]
            else ds + [d]
  {
    var ds' := ds + [Directive(d.name, [])];
    assert ds'[|ds|] in ds';
    k := AddedWhere(ds', d.name, d.arguments);
    forall i | 0 <= i < k ensures ds[i].name != d.name {
      assert ds'[i] == ds[i];
    }
    if k == |ds| {
      assert [] + d.arguments == d.arguments;
      assert ds'[k := Directive(d.name, d.arguments)] == ds + [d];
    } else {
      assert ds'[k] == ds[k];
      assert ds'[k := ds[k].(arguments := ds[k].arguments + d.arguments)] ==
             ds[k := ds[k].(arguments := ds[k].arguments + d.arguments)] + [Directive(d.name, [])];
    }
  }

  lemma {:induction false} NextFirstHasAll(ds: seq<Directive>, d: Directive)
    requires FirstHasAll(ds)
    ensures FirstHasAll(CreatedNext(ds, d)) && |CreatedNext(ds, d)| == |ds| + 1
  {
    var k := NextWhere(ds, d);
  }

  lemma {:induction false} AllFirstHasAll(ds: seq<Directive>, qs: seq<Directive>)
    requires FirstHasAll(ds)
    ensures FirstHasAll(CreatedAll(ds, qs)) && |CreatedAll(ds, qs)| == |ds| + |qs|
    decreases |qs|
  {
    if qs != [] {
      NextFirstHasAll(ds, qs[0]);
      AllFirstHasAll(CreatedNext(ds, qs[0]), qs[1..]);
    }
  }

  lemma {:induction false} OkPairwise(ds: seq<Directive>)
    requires ModelDirectivesOk(ds)
    ensures PairwiseDifferent(ds)
  {
    if ds != [] {
      var rest := ds[1..];
      assert forall d :: d in rest ==> d in ds;
      assert ([ds[0]] + Regular(rest))[1..] == Regular(rest) && ([ds[0]] + Repeated(rest))[1..] == Repeated(rest);
      OkPairwise(rest);
      forall i, j | 0 <= i < j < |ds| ensures !SameDirective(ds[i], ds[j]) {
        assert ds[j] == rest[j - 1];
        if i > 0 {
          assert ds[i] == rest[i - 1];
        } else if ds[0].name == ds[j].name {
          assert ds[j] in if IsRepeated(ds[0]) then Repeated(rest) else Regular(rest);
        }
      }
    }
  }

  lemma {:induction false} NoArguments(d: Directive, e: Directive)
    requires SameDirective(d, e)
    ensures d.arguments == [] <==> e.arguments == []
  {
    if d.arguments != [] {
      assert ValueAt(d.arguments, d.arguments[0].name).Some?;
    }
    if e.arguments != [] {
      assert ValueAt(e.arguments, e.arguments[0].name).Some?;
    }
  }

  /** Creating one more directive adds it to the others, if it does not meet another with arguments. */
  lemma {:induction false} NextMembers(ds: seq<Directive>, done: seq<Directive>, d: Directive)
    requires DirectivesAgree(ds, done)
    requires forall e :: e in done && e.name == d.name ==> e.arguments == [] || d.arguments == []
    ensures forall x :: x in CreatedNext(ds, d) <==> x in ds || x == d
  {
    var k := NextWhere(ds, d);
    hide CreatedNext;
    if k < |ds| {
      var e := ds[k];
      assert e in ds && Has(done, e);
      var q :| q in done && SameDirective(q, e);
      NoArguments(q, e);
      hide SameDirective, Has;
      if d.arguments == [] {
        assert e.arguments + [] == e.arguments && Directive(d.name, []) == d;
        assert ds[k := e] == ds;
      } else {
        assert [] + d.arguments == d.arguments && Directive(d.name, []) == e;
        var r := ds[k := d] + [e];
        forall x | x in ds || x == d ensures x in r {
          if x == d {
            assert r[k] == d;
          } else if x == e {
            assert r[|ds|] == e;
          } else {
            var i :| 0 <= i < |ds| && ds[i] == x;
            assert r[i] == x;
          }
        }
      }
    }
  }

  lemma {:induction false} AllMembers(ds: seq<Directive>, qs: seq<Directive>, rest: seq<Directive>)
    requires DirectivesAgree(ds, qs) && OneWithArguments(qs + rest)
    ensures DirectivesAgree(CreatedAll(ds, rest), qs + rest)
    decreases |rest|
  {
    if rest == [] {
      assert qs + rest == qs;
    } else {
      var d, all := rest[0], qs + rest;
      forall e | e in qs && e.name == d.name ensures e.arguments == [] || d.arguments == [] {
        var i :| 0 <= i < |qs| && qs[i] == e;
        assert all[i] == e && all[|qs|] == d;
      }
      NextMembers(ds, qs, d);
      var ds', qs' := CreatedNext(ds, d), qs + [d];
      hide SameDirective;
      forall x | x in ds' ensures Has(qs', x) {
        MemberHas(qs, d, x);
      }
      forall q | q in qs' ensures Has(ds', q) {
        MemberIn(ds, d, ds', q);
      }
      assert qs' + rest[1..] == all;
      AllMembers(ds', qs', rest[1..]);
    }
  }

  lemma {:induction false} MemberHas(qs: seq<Directive>, d: Directive, x: Directive)
    requires Has(qs, x) || x == d
    ensures Has(qs + [d], x)
  {
    if x == d {
      assert (qs + [d])[|qs|] == d && SameDirective(d, x);
    } else {
      HasMore(qs, qs + [d], x);
    }
  }

  lemma {:induction false} MemberIn(ds: seq<Directive>, d: Directive, ds': seq<Directive>, q: Directive)
    requires Has(ds, q) || q == d
    requires forall x :: x in ds' <==> x in ds || x == d
    ensures Has(ds', q)
  {
    if q == d {
      assert d in ds' && SameDirective(d, q);
    } else {
      HasMore(ds, ds', q);
    }
  }

  /**
    A new model gets its directives if and only if at most one directive of
    each name has arguments.
   */
  lemma {:induction false} CreatedDirectivesIff(qs: seq<Directive>)
    requires ModelDirectivesOk(qs)
    ensures RunOnDirectives([], DirectiveCreations([], qs)).Some?
    ensures SameDirectives(RunOnDirectives([], DirectiveCreations([], qs)).value, qs) <==> OneWithArguments(qs)
  {
    hide CreatedAll, DirectivesAgree, OneWithArguments, ModelDirectivesOk, RunOnDirectives, FirstHasAll;
    CreationsRun([], qs);
    NothingAgrees();
    AllFirstHasAll([], qs);
    if OneWithArguments(qs) {
      assert [] + qs == qs;
      AllMembers([], [], qs);
    }
    if DirectivesAgree(CreatedAll([], qs), qs) {
      OnlyOneHasArguments(CreatedAll([], qs), qs);
    }
  }

  lemma {:induction false} NothingAgrees()
    ensures DirectivesAgree([], []) && FirstHasAll([])
  {
  }

  lemma {:induction false} OnlyOneHasArguments(r: seq<Directive>, qs: seq<Directive>)
    requires ModelDirectivesOk(qs) && FirstHasAll(r) && DirectivesAgree(r, qs)
    ensures OneWithArguments(qs)
  {
    OkPairwise(qs);
    hide SameDirective, FirstHasAll, DirectivesAgree, ModelDirectivesOk;
    forall i, j | 0 <= i < j < |qs| && qs[i].name == qs[j].name ensures qs[i].arguments == [] || qs[j].arguments == [] {
      if qs[i].arguments != [] && qs[j].arguments != [] {
        SharedArguments(r, qs[i], qs[j], qs);
      }
    }
  }

  /** Two directives of a name that both have arguments find the same directive in the result. */
  lemma {:induction false} SharedArguments(r: seq<Directive>, p: Directive, q: Directive, qs: seq<Directive>)
    requires FirstHasAll(r) && DirectivesAgree(r, qs) && p in qs && q in qs
    requires p.name == q.name && p.arguments != [] && q.arguments != []
    ensures SameDirective(p, q)
  {
    assert Has(r, p) && Has(r, q);
    var d :| d in r && SameDirective(d, p);
    var e :| e in r && SameDirective(e, q);
    NoArguments(d, p);
    NoArguments(e, q);
    var k :| 0 <= k < |r| && r[k] == d;
    var l :| 0 <= l < |r| && r[l] == e;
    assert k == l;
  }
}
