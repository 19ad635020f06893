/** The aliases of a converted filter: what they resolve to, and that no two nested selects share one. */
module FilterAliases {
  import opened Wrappers
  import opened Names
  import opened FilterConversion

  type Rows = map<Option<Alias>, bool>

  // ----- every alias resolves -----

  /** A relation filter inside a larger nested filter is compared with the record one level up, if there is one. */
  predicate Resolvable(f: Filter, depth: Option<nat>, joinedAbove: bool)
    decreases f
  {
    match f
    case And(fs) => forall i :: 0 <= i < |fs| ==> Resolvable(fs[i], depth, joinedAbove)
    case Or(fs) => forall i :: 0 <= i < |fs| ==> Resolvable(fs[i], depth, joinedAbove)
    case Not(fs) => forall i :: 0 <= i < |fs| ==> Resolvable(fs[i], depth, joinedAbove)
    case Relation(_, _, _) =>
      if depth.None? then ResolvableBelow(f, 0, false)
      else (depth.value == 0 || joinedAbove) && ResolvableBelow(f, depth.value + 1, true)
    case _ => true
  }

  predicate ResolvableBelow(f: Filter, depth: nat, joinedAbove: bool)
    requires f.Relation?
    decreases f, 0
  {
    var compacted := Compacted(f.nested);
    if compacted.Relation? then ResolvableBelow(compacted, depth + 1, false) else Resolvable(compacted, Some(depth), joinedAbove)
  }

  ghost predicate UpTo(scope: Rows, n: nat) {
    forall a: Alias :: Some(a) in scope ==> a.counter < n
  }

  /** Whether the level above a level joined its records, and only then they are in scope. */
  ghost predicate Above(scope: Rows, n: nat, joinedAbove: bool) {
    n > 0 ==> (Some(Alias(n - 1, Join)) in scope <==> joinedAbove) && (joinedAbove ==> scope[Some(Alias(n - 1, Join))])
  }

  ghost predicate ScopeOf(scope: Rows, alias: Option<Alias>, joinedAbove: bool) {
    && alias in scope && scope[alias]
    && if alias.None? then UpTo(scope, 0)
       else alias.value.mode.Join? && UpTo(scope, alias.value.counter + 1) && Above(scope, alias.value.counter, joinedAbove)
  }

  lemma {:induction false} CondScoped(scope: Rows, f: Filter, alias: Option<Alias>, joinedAbove: bool)
    requires ScopeOf(scope, alias, joinedAbove)
    ensures WellScoped(scope, AliasedCond(f, alias)) <==> Resolvable(f, Depth(alias), joinedAbove)
    decreases f, 2
  {
    match f
    case And(fs) => AndScoped(scope, f, 0, alias, joinedAbove);
    case Or(fs) => OrScoped(scope, f, 0, alias, joinedAbove);
    case Not(fs) => NotScoped(scope, f, 0, alias, joinedAbove);
    case Scalar(column, test) =>
    case OneRelationIsNull(field) =>
      if !field.inlinedInParent {
        assert WellScoped(scope[alias := false], IsNotNull(ColumnRef(alias, ThisSide)));
      }
    case Relation(field, condition, nested) => RelationScoped(scope, f, alias, joinedAbove);
    case BoolFilter(b) =>
  }

  lemma {:induction false} RelationScoped(scope: Rows, f: Filter, alias: Option<Alias>, joinedAbove: bool)
    requires f.Relation? && ScopeOf(scope, alias, joinedAbove)
    ensures WellScoped(scope, AliasedCond(f, alias)) <==> Resolvable(f, Depth(alias), joinedAbove)
    decreases f, 1
  {
    hide AliasedSel, ResolvableBelow;
    if alias.None? {
      SelScoped(scope, f, None, false);
    } else {
      SelScoped(scope, f, Some(alias.value.Inc(Table)), true);
    }
  }

  lemma {:induction false} AndScoped(scope: Rows, f: Filter, i: nat, alias: Option<Alias>, joinedAbove: bool)
    requires f.And? && i <= |f.filters| && ScopeOf(scope, alias, joinedAbove)
    ensures WellScoped(scope, AndFrom(f, i, alias))
            <==> forall j :: i <= j < |f.filters| ==> Resolvable(f.filters[j], Depth(alias), joinedAbove)
    decreases f, 0, |f.filters| - i
  {
    hide ScopeOf;
    if i < |f.filters| {
      CondScoped(scope, f.filters[i], alias, joinedAbove);
      AndScoped(scope, f, i + 1, alias, joinedAbove);
    }
  }

  lemma {:induction false} OrScoped(scope: Rows, f: Filter, i: nat, alias: Option<Alias>, joinedAbove: bool)
    requires f.Or? && i <= |f.filters| && ScopeOf(scope, alias, joinedAbove)
    ensures WellScoped(scope, OrFrom(f, i, alias))
            <==> forall j :: i <= j < |f.filters| ==> Resolvable(f.filters[j], Depth(alias), joinedAbove)
    decreases f, 0, |f.filters| - i
  {
    hide ScopeOf;
    if i < |f.filters| {
      CondScoped(scope, f.filters[i], alias, joinedAbove);
      OrScoped(scope, f, i + 1, alias, joinedAbove);
    }
  }

  lemma {:induction false} NotScoped(scope: Rows, f: Filter, i: nat, alias: Option<Alias>, joinedAbove: bool)
    requires f.Not? && i <= |f.filters| && ScopeOf(scope, alias, joinedAbove)
    ensures WellScoped(scope, NotFrom(f, i, alias))
            <==> forall j :: i <= j < |f.filters| ==> Resolvable(f.filters[j], Depth(alias), joinedAbove)
    decreases f, 0, |f.filters| - i
  {
    hide ScopeOf;
    if i < |f.filters| {
      CondScoped(scope, f.filters[i], alias, joinedAbove);
      NotScoped(scope, f, i + 1, alias, joinedAbove);
    }
  }

  function Inner(scope: Rows, select: Select): Rows {
    var inner := scope[select.alias := false];
    if select.join.None? then inner else inner[select.join := true]
  }

  lemma {:induction false} SelScoped(scope: Rows, f: Filter, outer: Option<Alias>, joinedAbove: bool)
    requires f.Relation? && (outer.Some? ==> outer.value.mode.Table?)
    requires var n := if outer.None? then 0 else outer.value.counter; UpTo(scope, n) && Above(scope, n, joinedAbove)
    ensures var n := if outer.None? then 0 else outer.value.counter;
            var select := AliasedSel(f, outer);
            WellScoped(Inner(scope, select), select.condition) <==> ResolvableBelow(f, n, joinedAbove)
    decreases f, 0
  {
    hide Compacted, Resolvable;
    var alias := if outer.Some? then outer.value else Alias(0, Table);
    var compacted := Compacted(f.nested);
    var select := AliasedSel(f, outer);
    var inner := Inner(scope, select);
    if compacted.Relation? {
      var next := Some(alias.Inc(Table));
      var sub := AliasedSel(compacted, next);
      SelScoped(inner, compacted, next, false);
      var tree := InSelection(ColumnRef(Some(alias), OtherSide), Negates(compacted.condition), sub);
      assert select.condition == InvertIf(tree, f.condition.EveryRelatedRecord?);
      assert WellScoped(inner, tree) <==> WellScoped(Inner(inner, sub), sub.condition);
    } else {
      var join := Some(alias.Flip(Join));
      CondScoped(inner, compacted, join, joinedAbove);
      assert select.condition == InvertIf(AliasedCond(compacted, join), f.condition.EveryRelatedRecord?);
    }
  }

  /** A converted filter can be resolved if and only if every filter inside a larger nested one has a record above. */
  lemma {:induction false} WellScopedIff(f: Filter)
    ensures WellScoped(map[None := true], AliasedCond(f, None)) <==> Resolvable(f, None, false)
  {
    CondScoped(map[None := true], f, None, false);
  }

  lemma {:induction false} ConvertibleIsResolvable(f: Filter, depth: Option<nat>, joinedAbove: bool)
    requires Convertible(f, depth)
    ensures Resolvable(f, depth, joinedAbove)
    decreases f
  {
    match f
    case And(fs) => forall i | 0 <= i < |fs| ensures Resolvable(fs[i], depth, joinedAbove) { ConvertibleIsResolvable(fs[i], depth, joinedAbove); }
    case Or(fs) => forall i | 0 <= i < |fs| ensures Resolvable(fs[i], depth, joinedAbove) { ConvertibleIsResolvable(fs[i], depth, joinedAbove); }
    case Not(fs) => forall i | 0 <= i < |fs| ensures Resolvable(fs[i], depth, joinedAbove) { ConvertibleIsResolvable(fs[i], depth, joinedAbove); }
    case Relation(_, _, _) => BelowIsResolvable(f, if depth.None? then 0 else 1, depth.Some?);
    case _ =>
  }

  lemma {:induction false} BelowIsResolvable(f: Filter, depth: nat, joinedAbove: bool)
    requires f.Relation? && ConvertibleBelow(f, depth)
    ensures ResolvableBelow(f, depth, joinedAbove)
    decreases f, 0
  {
    var compacted := Compacted(f.nested);
    if compacted.Relation? {
      BelowIsResolvable(compacted, depth + 1, false);
    } else {
      ConvertibleIsResolvable(compacted, Some(depth), joinedAbove);
    }
  }

  // ----- no alias is reused -----

  /** The aliases of nested selects differ from those around them. */
  predicate Fresh(used: set<Alias>, c: Condition)
    decreases c
  {
    match c
    case AndAlso(left, right) => Fresh(used, left) && Fresh(used, right)
    case OrElse(left, right) => Fresh(used, left) && Fresh(used, right)
    case Inverted(condition) => Fresh(used, condition)
    case InSelection(_, _, select) =>
      && Aliases(select) !! used && (select.join.Some? ==> select.alias != select.join)
      && Fresh(used + Aliases(select), select.condition)
    case _ => true
  }

  function Aliases(s: Select): set<Alias> {
    (if s.alias.Some? then {s.alias.value} else {}) + (if s.join.Some? then {s.join.value} else {})
  }

  /** A check for a missing relation, kept in a table of its own, below a relation filter. */
  predicate NullCheckBelow(f: Filter, below: bool) {
    match f
    case And(fs) => exists i :: 0 <= i < |fs| && NullCheckBelow(fs[i], below)
    case Or(fs) => exists i :: 0 <= i < |fs| && NullCheckBelow(fs[i], below)
    case Not(fs) => exists i :: 0 <= i < |fs| && NullCheckBelow(fs[i], below)
    case OneRelationIsNull(field) => below && !field.inlinedInParent
    case Relation(_, _, nested) => NullCheckBelow(nested, true)
    case _ => false
  }

  lemma {:induction false} CompactedChecks(f: Filter, below: bool)
    ensures NullCheckBelow(Compacted(f), below) <==> NullCheckBelow(f, below)
  {
  }

  ghost predicate UsedUpTo(used: set<Alias>, n: nat) {
    forall a :: a in used ==> a.counter < n
  }

  ghost predicate UsedFor(used: set<Alias>, alias: Option<Alias>) {
    if alias.None? then used == {} else alias.value in used && UsedUpTo(used, alias.value.counter + 1)
  }

  lemma {:induction false} CondFresh(used: set<Alias>, f: Filter, alias: Option<Alias>)
    requires UsedFor(used, alias)
    ensures Fresh(used, AliasedCond(f, alias)) <==> !NullCheckBelow(f, alias.Some?)
    decreases f
  {
    match f
    case And(fs) => AndFresh(used, f, 0, alias);
    case Or(fs) => OrFresh(used, f, 0, alias);
    case Not(fs) => NotFresh(used, f, 0, alias);
    case Scalar(column, test) =>
    case OneRelationIsNull(field) =>
      if !field.inlinedInParent {
        var select := Select(field, alias, None, IsNotNull(ColumnRef(alias, ThisSide)));
        assert AliasedCond(f, alias) == InSelection(ColumnRef(alias, IdOf), true, select);
        assert Fresh(used + Aliases(select), select.condition);
      }
    case Relation(field, condition, nested) => SelFresh(used, f, if alias.Some? then Some(alias.value.Inc(Table)) else None);
    case BoolFilter(b) =>
  }

  lemma {:induction false} AndFresh(used: set<Alias>, f: Filter, i: nat, alias: Option<Alias>)
    requires f.And? && i <= |f.filters| && UsedFor(used, alias)
    ensures Fresh(used, AndFrom(f, i, alias)) <==> forall j :: i <= j < |f.filters| ==> !NullCheckBelow(f.filters[j], alias.Some?)
    decreases f, 0, |f.filters| - i
  {
    hide UsedFor;
    if i < |f.filters| {
      CondFresh(used, f.filters[i], alias);
      AndFresh(used, f, i + 1, alias);
    }
  }

  lemma {:induction false} OrFresh(used: set<Alias>, f: Filter, i: nat, alias: Option<Alias>)
    requires f.Or? && i <= |f.filters| && UsedFor(used, alias)
    ensures Fresh(used, OrFrom(f, i, alias)) <==> forall j :: i <= j < |f.filters| ==> !NullCheckBelow(f.filters[j], alias.Some?)
    decreases f, 0, |f.filters| - i
  {
    hide UsedFor;
    if i < |f.filters| {
      CondFresh(used, f.filters[i], alias);
      OrFresh(used, f, i + 1, alias);
    }
  }

  lemma {:induction false} NotFresh(used: set<Alias>, f: Filter, i: nat, alias: Option<Alias>)
    requires f.Not? && i <= |f.filters| && UsedFor(used, alias)
    ensures Fresh(used, NotFrom(f, i, alias)) <==> forall j :: i <= j < |f.filters| ==> !NullCheckBelow(f.filters[j], alias.Some?)
    decreases f, 0, |f.filters| - i
  {
    hide UsedFor;
    if i < |f.filters| {
      CondFresh(used, f.filters[i], alias);
      NotFresh(used, f, i + 1, alias);
    }
  }

  lemma {:induction false} SelFresh(used: set<Alias>, f: Filter, outer: Option<Alias>)
    requires f.Relation? && (outer.Some? ==> outer.value.mode.Table?)
    requires UsedUpTo(used, if outer.None? then 0 else outer.value.counter)
    ensures var select := AliasedSel(f, outer);
            && Aliases(select) !! used && (select.join.Some? ==> select.alias != select.join)
            && (Fresh(used + Aliases(select), select.condition) <==> !NullCheckBelow(f.nested, true))
    decreases f, 0
  {
    hide Compacted;
    var alias := if outer.Some? then outer.value else Alias(0, Table);
    var compacted := Compacted(f.nested);
    var select := AliasedSel(f, outer);
    var inner := used + Aliases(select);
    CompactedChecks(f.nested, true);
    if compacted.Relation? {
      var next := Some(alias.Inc(Table));
      SelFresh(inner, compacted, next);
      var sub := AliasedSel(compacted, next);
      var tree := InSelection(ColumnRef(Some(alias), OtherSide), Negates(compacted.condition), sub);
      assert select.condition == InvertIf(tree, f.condition.EveryRelatedRecord?);
      assert Fresh(inner, tree) <==> Fresh(inner + Aliases(sub), sub.condition);
    } else {
      var join := Some(alias.Flip(Join));
      CondFresh(inner, compacted, join);
      assert select.condition == InvertIf(AliasedCond(compacted, join), f.condition.EveryRelatedRecord?);
    }
  }

  /** No alias is used again inside its own select, unless by a check for a missing relation. */
  lemma {:induction false} AliasesFreshIff(f: Filter)
    ensures Fresh({}, AliasedCond(f, None)) <==> !NullCheckBelow(f, false)
  {
    CondFresh({}, f, None);
  }

  // ----- a filter that changes its meaning -----

  function Self(relation: Name): RelationField {
    RelationField(relation, false, "M", false)
  }

  function SomeOf(relation: Name, nested: Filter): Filter {
    Relation(Self(relation), AtLeastOneRelatedRecord, nested)
  }

  function With(f: Filter): Filter {
    And([f, BoolFilter(true)])
  }

  /** A relation filter in a larger one below two relation filters: nothing of the level above was joined. */
  lemma {:induction false} SkippedLevelIsUnresolved()
    ensures !WellScoped(map[None := true], AliasedCond(SomeOf("a", SomeOf("b", With(SomeOf("c", BoolFilter(true))))), None))
  {
    var f := SomeOf("c", BoolFilter(true));
    var g := SomeOf("b", With(f));
    assert With(f).filters[0] == f && !Resolvable(f, Some(1), false);
    assert !Resolvable(With(f), Some(1), false);
    assert Compacted(With(f)) == With(f) && !ResolvableBelow(g, 1, false);
    assert Compacted(g) == g && !ResolvableBelow(SomeOf("a", g), 0, false);
    WellScopedIff(SomeOf("a", g));
  }

  /** A check for a missing relation below a relation filter uses the alias of that filter again. */
  lemma {:induction false} NullCheckReusesAlias()
    ensures !Fresh({}, AliasedCond(SomeOf("a", OneRelationIsNull(Self("b"))), None))
  {
    var f := SomeOf("a", OneRelationIsNull(Self("b")));
    assert NullCheckBelow(f.nested, true);
    AliasesFreshIff(f);
  }

  /** Two relation filters, each inside a larger nested filter. */
  function Deep(a: Name, b: Name, c: Name): Filter {
    SomeOf(a, With(SomeOf(b, With(SomeOf(c, BoolFilter(true))))))
  }

  const DEEP := Deep("a", "b", "c")

  const CHAIN := Database(
    map["M" := map[1 := map[], 2 := map[], 3 := map[], 4 := map[]]],
    map["a" := {(1, 2)}, "b" := {(2, 3)}, "c" := {(3, 4)}], {})

  /** A larger nested filter matches as its part does. */
  lemma {:induction false} WithMatches(db: Database, f: Filter, id: Id)
    ensures Matches(db, With(f), "M", id) <==> Matches(db, f, "M", id)
    ensures Integral(db, With(f)) <==> Integral(db, f)
  {
    assert With(f).filters[0] == f && With(f).filters[1] == BoolFilter(true);
  }

  lemma {:induction false} SomeMatches(relation: Name, nested: Filter, id: Id, to: Id)
    requires Linked(CHAIN, Self(relation), id, to)
    ensures Matches(CHAIN, nested, "M", to) ==> Matches(CHAIN, SomeOf(relation, nested), "M", id)
    ensures Integral(CHAIN, nested) ==> Integral(CHAIN, SomeOf(relation, nested))
  {
  }

  /** What a deep filter asks for: a record at the end of three links. */
  lemma {:induction false} DeepMatchesAlong(a: Name, b: Name, c: Name, ids: seq<Id>)
    requires |ids| == 4
    requires Linked(CHAIN, Self(a), ids[0], ids[1]) && Linked(CHAIN, Self(b), ids[1], ids[2]) && Linked(CHAIN, Self(c), ids[2], ids[3])
    ensures Matches(CHAIN, Deep(a, b, c), "M", ids[0]) && Integral(CHAIN, Deep(a, b, c))
  {
    var inner := SomeOf(c, BoolFilter(true));
    var middle := SomeOf(b, With(inner));
    assert Matches(CHAIN, BoolFilter(true), "M", ids[3]) && Integral(CHAIN, BoolFilter(true));
    hide With, SomeOf, Linked, Matches, Integral;
    SomeMatches(c, BoolFilter(true), ids[2], ids[3]);
    WithMatches(CHAIN, inner, ids[2]);
    SomeMatches(b, With(inner), ids[1], ids[2]);
    WithMatches(CHAIN, middle, ids[1]);
    SomeMatches(a, With(middle), ids[0], ids[1]);
  }

  function Sub(relation: Name, level: nat, condition: Condition): Select {
    Select(Self(relation), Some(Alias(level, Table)), Some(Alias(level, Join)), AndAlso(condition, NoCondition))
  }

  /** The innermost comparison looks at the record two levels up. */
  lemma {:induction false} DeepConverts()
    ensures var c := Select(Self("c"), Some(Alias(2, Table)), Some(Alias(2, Join)), NoCondition);
            var third := InSelection(ColumnRef(Some(Alias(0, Join)), IdOf), false, c);
            var second := InSelection(ColumnRef(Some(Alias(0, Join)), IdOf), false, Sub("b", 1, third));
            AliasedCond(DEEP, None) == InSelection(ColumnRef(None, IdOf), false, Sub("a", 0, second))
  {
    var f := SomeOf("c", BoolFilter(true));
    var third := AliasedCond(f, Some(Alias(1, Join)));
    WithConverts(f, Some(Alias(1, Join)));
    var g := SomeOf("b", With(f));
    assert AliasedSel(g, Some(Alias(1, Table))) == Sub("b", 1, third);
    WithConverts(g, Some(Alias(0, Join)));
    assert AliasedSel(DEEP, None) == Sub("a", 0, AliasedCond(g, Some(Alias(0, Join))));
  }

  lemma {:induction false} WithConverts(f: Filter, alias: Option<Alias>)
    ensures AliasedCond(With(f), alias) == AndAlso(AliasedCond(f, alias), NoCondition)
  {
    assert AndFrom(With(f), 1, alias) == AliasedCond(BoolFilter(true), alias);
  }

  /** A filter that is not convertible can lose its meaning, though all its aliases resolve. */
  lemma {:induction false} DeepFilterIsLost()
    ensures !Convertible(DEEP, None) && Resolvable(DEEP, None, false) && Integral(CHAIN, DEEP)
    ensures Matches(CHAIN, DEEP, "M", 1) && !Holds(CHAIN, map[None := Record("M", 1)], AliasedCond(DEEP, None))
  {
    hide Matches, Resolvable, Convertible, Integral, AliasedCond, Holds;
    assert Linked(CHAIN, Self("a"), 1, 2) && Linked(CHAIN, Self("b"), 2, 3) && Linked(CHAIN, Self("c"), 3, 4);
    DeepMatchesAlong("a", "b", "c", [1, 2, 3, 4]);
    DeepIsResolvable("a", "b", "c");
    DeepConverts();
    NothingSelectedAtAll();
  }

  lemma {:induction false} NothingSelectedAtAll()
    ensures var c := Select(Self("c"), Some(Alias(2, Table)), Some(Alias(2, Join)), NoCondition);
            var third := InSelection(ColumnRef(Some(Alias(0, Join)), IdOf), false, c);
            var second := InSelection(ColumnRef(Some(Alias(0, Join)), IdOf), false, Sub("b", 1, third));
            !Holds(CHAIN, map[None := Record("M", 1)], InSelection(ColumnRef(None, IdOf), false, Sub("a", 0, second)))
  {
    var c := Select(Self("c"), Some(Alias(2, Table)), Some(Alias(2, Join)), NoCondition);
    var third := InSelection(ColumnRef(Some(Alias(0, Join)), IdOf), false, c);
    var second := InSelection(ColumnRef(Some(Alias(0, Join)), IdOf), false, Sub("b", 1, third));
    var base: Scope := map[None := Record("M", 1)];
    forall to | Linked(CHAIN, Self("a"), 1, to)
      ensures !Selects(CHAIN, base, Sub("a", 0, second), 1, to)
    {
      var inner := base[Some(Alias(0, Table)) := Link(1, to)][Some(Alias(0, Join)) := Record("M", to)];
      NothingSelected(inner, third, c);
      assert !Holds(CHAIN, inner, AndAlso(second, NoCondition));
    }
  }

  /** From the second record, no link of the third relation starts. */
  lemma {:induction false} NothingSelected(scope: Scope, third: Condition, c: Select)
    requires scope.Keys >= {Some(Alias(0, Join))} && scope[Some(Alias(0, Join))] == Record("M", 2)
    requires c.field == Self("c") && third == InSelection(ColumnRef(Some(Alias(0, Join)), IdOf), false, c)
    ensures !Holds(CHAIN, scope, InSelection(ColumnRef(Some(Alias(0, Join)), IdOf), false, Sub("b", 1, third)))
  {
    forall to
      ensures !Selects(CHAIN, scope, Sub("b", 1, third), 2, to)
    {
      var inner := scope[Some(Alias(1, Table)) := Link(2, to)][Some(Alias(1, Join)) := Record("M", to)];
      assert forall next :: !Linked(CHAIN, Self("c"), 2, next);
      assert !Holds(CHAIN, inner, third);
      assert !Holds(CHAIN, inner, AndAlso(third, NoCondition));
    }
  }

  lemma {:induction false} DeepIsResolvable(a: Name, b: Name, c: Name)
    ensures Resolvable(Deep(a, b, c), None, false) && !Convertible(Deep(a, b, c), None)
  {
    hide Resolvable, ResolvableBelow, Convertible, ConvertibleBelow, With, SomeOf;
    var f := SomeOf(c, BoolFilter(true));
    var g := SomeOf(b, With(f));
    InnermostResolves(c);
    RelationResolves(c, BoolFilter(true), Some(1), true);
    BelowWith(b, f, 1, true);
    RelationResolves(b, With(f), Some(0), false);
    BelowWith(a, g, 0, false);
    RelationResolves(a, With(g), None, false);
  }

  lemma {:induction false} RelationResolves(relation: Name, nested: Filter, depth: Option<nat>, joinedAbove: bool)
    ensures var f := SomeOf(relation, nested);
            && (Resolvable(f, depth, joinedAbove)
                <==> if depth.None? then ResolvableBelow(f, 0, false)
                     else (depth.value == 0 || joinedAbove) && ResolvableBelow(f, depth.value + 1, true))
            && (Convertible(f, depth)
                <==> (depth.None? || depth.value == 0) && ConvertibleBelow(f, if depth.None? then 0 else 1))
  {
    hide ResolvableBelow, ConvertibleBelow;
  }

  lemma {:induction false} InnermostResolves(c: Name)
    ensures ResolvableBelow(SomeOf(c, BoolFilter(true)), 2, true)
  {
  }

  /** A larger nested filter is resolved, and converted, as its parts are. */
  lemma {:induction false} BelowWith(relation: Name, f: Filter, depth: nat, joinedAbove: bool)
    ensures ResolvableBelow(SomeOf(relation, With(f)), depth, joinedAbove) <==> Resolvable(f, Some(depth), joinedAbove)
    ensures ConvertibleBelow(SomeOf(relation, With(f)), depth) <==> Convertible(f, Some(depth))
  {
    var whole := With(f);
    assert Compacted(whole) == whole;
    assert whole.filters[0] == f && whole.filters[1] == BoolFilter(true);
    assert Resolvable(whole, Some(depth), joinedAbove) <==> Resolvable(f, Some(depth), joinedAbove);
    assert Convertible(whole, Some(depth)) <==> Convertible(f, Some(depth));
  }
}
