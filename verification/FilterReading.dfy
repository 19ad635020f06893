/**
  What the condition tree of a filter means in general.  A relation filter inside a
  larger nested filter is compared with the record one level up; where that makes
  no difference, the tree means what the filter does.
 */
module FilterReading {
  import opened Wrappers
  import opened Names
  import opened FilterConversion
  import opened FilterAliases

  // ----- a filter as it is read -----

  /**
    The filter about record `id`, at a nesting depth, with relation filters below the
    first level starting from `above`, the record of the level above.
   */
  ghost predicate AsRead(db: Database, f: Filter, depth: Option<nat>, model: Name, id: Id, above: Id)
    decreases f, 2
  {
    match f
    case And(fs) => forall i :: 0 <= i < |fs| ==> AsRead(db, fs[i], depth, model, id, above)
    case Or(fs) => exists i :: 0 <= i < |fs| && AsRead(db, fs[i], depth, model, id, above)
    case Not(fs) => forall i :: 0 <= i < |fs| ==> !AsRead(db, fs[i], depth, model, id, above)
    case Scalar(column, test) => (test, Value(db, model, id, column)) in db.passes
    case OneRelationIsNull(field) => forall to :: !Linked(db, field, id, to)
    case Relation(_, _, _) =>
      if depth.None? then RelationAsRead(db, f, 0, id, id)
      else RelationAsRead(db, f, depth.value + 1, if depth.value == 0 then id else above, id)
    case BoolFilter(b) => b
  }

  /** A relation filter whose links start at `from`; `enclosing` is the record it is part of a filter about. */
  ghost predicate RelationAsRead(db: Database, f: Filter, depth: nat, from: Id, enclosing: Id)
    requires f.Relation?
    decreases f, 1
  {
    match f.condition
    case EveryRelatedRecord => forall to :: Linked(db, f.field, from, to) ==> NestedAsRead(db, f, depth, to, enclosing)
    case NoRelatedRecord => forall to :: Linked(db, f.field, from, to) ==> !NestedAsRead(db, f, depth, to, enclosing)
    case _ => exists to :: Linked(db, f.field, from, to) && NestedAsRead(db, f, depth, to, enclosing)
  }

  ghost predicate NestedAsRead(db: Database, f: Filter, depth: nat, to: Id, enclosing: Id)
    requires f.Relation?
    decreases f, 0
  {
    var compacted := Compacted(f.nested);
    if compacted.Relation? then RelationAsRead(db, compacted, depth + 1, to, to)
    else AsRead(db, compacted, Some(depth), f.field.relatedModel, to, enclosing)
  }

  // ----- the condition tree means the filter as it is read -----

  ghost predicate RecordAbove(scope: Scope, depth: nat, joinedAbove: bool, above: Id) {
    depth > 0 && joinedAbove ==>
      var alias := Some(Alias(depth - 1, Join));
      alias in scope && scope[alias].Record? && scope[alias].id == above
  }

  /** The record that a filter is about, and the one above it. */
  ghost predicate InContext(scope: Scope, alias: Option<Alias>, joinedAbove: bool, model: Name, id: Id, above: Id) {
    About(scope, alias, model, id) && (alias.Some? ==> RecordAbove(scope, alias.value.counter, joinedAbove, above))
  }

  ghost predicate Readable(db: Database, scope: Scope, f: Filter, alias: Option<Alias>, joinedAbove: bool, model: Name, id: Id, above: Id) {
    Resolvable(f, Depth(alias), joinedAbove) && Integral(db, f) && InContext(scope, alias, joinedAbove, model, id, above)
  }

  lemma {:induction false} CondReads(db: Database, scope: Scope, f: Filter, alias: Option<Alias>, joinedAbove: bool, model: Name, id: Id, above: Id)
    requires Readable(db, scope, f, alias, joinedAbove, model, id, above)
    ensures Holds(db, scope, AliasedCond(f, alias)) <==> AsRead(db, f, Depth(alias), model, id, above)
    decreases f, 3
  {
    match f
    case And(fs) => AndReads(db, scope, f, 0, alias, joinedAbove, model, id, above);
    case Or(fs) => OrReads(db, scope, f, 0, alias, joinedAbove, model, id, above);
    case Not(fs) => NotReads(db, scope, f, 0, alias, joinedAbove, model, id, above);
    case Scalar(column, test) =>
    case OneRelationIsNull(field) => NullMeans(db, scope, field, alias, model, id);
    case Relation(field, condition, nested) => NestedRelationReads(db, scope, f, alias, joinedAbove, model, id, above);
    case BoolFilter(b) =>
  }

  lemma {:induction false} NestedRelationReads(db: Database, scope: Scope, f: Filter, alias: Option<Alias>, joinedAbove: bool, model: Name, id: Id, above: Id)
    requires f.Relation? && Readable(db, scope, f, alias, joinedAbove, model, id, above)
    ensures Holds(db, scope, AliasedCond(f, alias)) <==> AsRead(db, f, Depth(alias), model, id, above)
    decreases f, 2
  {
    hide Holds, RelationAsRead, AliasedSel, ResolvableBelow, Integral;
    if alias.None? {
      RelationReads(db, scope, ColumnRef(None, IdOf), f, None, false, id, id);
    } else {
      var depth := alias.value.counter;
      var from := if depth == 0 then id else above;
      var ref := ColumnRef(Some(alias.value.Dec()), IdOf);
      assert IdIn(scope, ref) == Some(from);
      RelationReads(db, scope, ref, f, Some(alias.value.Inc(Table)), true, from, id);
    }
  }

  lemma {:induction false} AndReads(db: Database, scope: Scope, f: Filter, i: nat, alias: Option<Alias>, joinedAbove: bool, model: Name, id: Id, above: Id)
    requires f.And? && i <= |f.filters| && Readable(db, scope, f, alias, joinedAbove, model, id, above)
    ensures Holds(db, scope, AndFrom(f, i, alias)) <==>
            forall j :: i <= j < |f.filters| ==> AsRead(db, f.filters[j], Depth(alias), model, id, above)
    decreases f, 0, |f.filters| - i
  {
    hide InContext;
    if i < |f.filters| {
      CondReads(db, scope, f.filters[i], alias, joinedAbove, model, id, above);
      AndReads(db, scope, f, i + 1, alias, joinedAbove, model, id, above);
    }
  }

  lemma {:induction false} OrReads(db: Database, scope: Scope, f: Filter, i: nat, alias: Option<Alias>, joinedAbove: bool, model: Name, id: Id, above: Id)
    requires f.Or? && i <= |f.filters| && Readable(db, scope, f, alias, joinedAbove, model, id, above)
    ensures Holds(db, scope, OrFrom(f, i, alias)) <==>
            exists j :: i <= j < |f.filters| && AsRead(db, f.filters[j], Depth(alias), model, id, above)
    decreases f, 0, |f.filters| - i
  {
    hide InContext;
    if i < |f.filters| {
      CondReads(db, scope, f.filters[i], alias, joinedAbove, model, id, above);
      OrReads(db, scope, f, i + 1, alias, joinedAbove, model, id, above);
    }
  }

  lemma {:induction false} NotReads(db: Database, scope: Scope, f: Filter, i: nat, alias: Option<Alias>, joinedAbove: bool, model: Name, id: Id, above: Id)
    requires f.Not? && i <= |f.filters| && Readable(db, scope, f, alias, joinedAbove, model, id, above)
    ensures Holds(db, scope, NotFrom(f, i, alias)) <==>
            forall j :: i <= j < |f.filters| ==> !AsRead(db, f.filters[j], Depth(alias), model, id, above)
    decreases f, 0, |f.filters| - i
  {
    hide InContext;
    if i < |f.filters| {
      CondReads(db, scope, f.filters[i], alias, joinedAbove, model, id, above);
      NotReads(db, scope, f, i + 1, alias, joinedAbove, model, id, above);
    }
  }

  function LevelOf(outer: Option<Alias>): nat {
    if outer.None? then 0 else outer.value.counter
  }

  ghost predicate ReadableBelow(db: Database, scope: Scope, f: Filter, outer: Option<Alias>, joinedAbove: bool, enclosing: Id) {
    && f.Relation? && ResolvableBelow(f, LevelOf(outer), joinedAbove) && Integral(db, f)
    && (outer.Some? ==> outer.value.mode.Table?) && RecordAbove(scope, LevelOf(outer), joinedAbove, enclosing)
  }

  /** A comparison with the sub-select of a relation filter. */
  lemma {:induction false} RelationReads(
    db: Database, scope: Scope, ref: ColumnRef, f: Filter, outer: Option<Alias>, joinedAbove: bool, from: Id, enclosing: Id)
    requires ReadableBelow(db, scope, f, outer, joinedAbove, enclosing) && IdIn(scope, ref) == Some(from)
    ensures Holds(db, scope, InSelection(ref, Negates(f.condition), AliasedSel(f, outer))) <==>
            RelationAsRead(db, f, LevelOf(outer), from, enclosing)
    decreases f, 1
  {
    hide AliasedSel, IdIn, Linked, NestedAsRead, ResolvableBelow, Integral, RecordAbove;
    var select := AliasedSel(f, outer);
    assert select.field == f.field by {
      SelectsFrom(f, outer);
    }
    forall to | Linked(db, f.field, from, to)
      ensures Selects(db, scope, select, from, to) <==> (NestedAsRead(db, f, LevelOf(outer), to, enclosing) <==> !f.condition.EveryRelatedRecord?)
    {
      SelReads(db, scope, f, outer, joinedAbove, from, to, enclosing);
    }
    hide Selects;
  }

  lemma {:induction false} SelReads(
    db: Database, scope: Scope, f: Filter, outer: Option<Alias>, joinedAbove: bool, from: Id, to: Id, enclosing: Id)
    requires ReadableBelow(db, scope, f, outer, joinedAbove, enclosing) && Linked(db, f.field, from, to)
    ensures Selects(db, scope, AliasedSel(f, outer), from, to) <==>
            (NestedAsRead(db, f, LevelOf(outer), to, enclosing) <==> !f.condition.EveryRelatedRecord?)
    decreases f, 0
  {
    hide Linked, Compacted;
    var alias := if outer.Some? then outer.value else Alias(0, Table);
    var compacted := Compacted(f.nested);
    var select := AliasedSel(f, outer);
    var model := f.field.relatedModel;
    CompactedMeans(db, f.nested, model, to);
    var inner := scope[Some(alias) := Link(from, to)];
    if compacted.Relation? {
      var ref := ColumnRef(Some(alias), OtherSide);
      var tree := InSelection(ref, Negates(compacted.condition), AliasedSel(compacted, Some(alias.Inc(Table))));
      RelationReads(db, inner, ref, compacted, Some(alias.Inc(Table)), false, to, to);
      assert select == Select(f.field, Some(alias), None, InvertIf(tree, f.condition.EveryRelatedRecord?));
      hide RelationAsRead;
      assert Holds(db, inner, InvertIf(tree, f.condition.EveryRelatedRecord?)) <==> (Holds(db, inner, tree) <==> !f.condition.EveryRelatedRecord?);
    } else {
      var join := Some(alias.Flip(Join));
      var joined := inner[join := Record(model, to)];
      var tree := AliasedCond(compacted, join);
      CondReads(db, joined, compacted, join, joinedAbove, model, to, enclosing);
      assert select == Select(f.field, Some(alias), join, InvertIf(tree, f.condition.EveryRelatedRecord?));
      hide AsRead;
      assert Holds(db, joined, InvertIf(tree, f.condition.EveryRelatedRecord?)) <==> (Holds(db, joined, tree) <==> !f.condition.EveryRelatedRecord?);
    }
  }

  /** Every filter that can be resolved selects what it means as it is read. */
  lemma {:induction false} ConversionReads(db: Database, f: Filter, model: Name, id: Id)
    requires Resolvable(f, None, false) && Integral(db, f)
    ensures Holds(db, map[None := Record(model, id)], AliasedCond(f, None)) <==> AsRead(db, f, None, model, id, id)
  {
    CondReads(db, map[None := Record(model, id)], f, None, false, model, id, id);
  }

  /** A convertible filter is read as what it means. */
  lemma {:induction false} ConvertibleIsReadRight(db: Database, f: Filter, model: Name, id: Id)
    requires Convertible(f, None) && Integral(db, f)
    ensures AsRead(db, f, None, model, id, id) <==> Matches(db, f, model, id)
  {
    ConvertibleIsResolvable(f, None, false);
    ConversionReads(db, f, model, id);
    ConversionKeepsMeaning(db, f, model, id);
  }
}
