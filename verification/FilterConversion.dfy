/**
  Filters over records and their relations, compiled to condition trees with
  aliased sub-selects, and the meaning of both.
 */
module FilterConversion {
  import opened Wrappers
  import opened Names

  type Id = int

  /** A side of a relation, seen from the model that has the field. */
  datatype RelationField = RelationField(relation: Name, flipped: bool, relatedModel: Name, inlinedInParent: bool)

  datatype RelationCondition =
    | EveryRelatedRecord
    | NoRelatedRecord
    | AtLeastOneRelatedRecord
    | ToOneRelatedRecord

  datatype Filter =
    | And(filters: seq<Filter>)
    | Or(filters: seq<Filter>)
    | Not(filters: seq<Filter>)
    | Scalar(column: Name, test: string)
    | OneRelationIsNull(field: RelationField)
    | Relation(field: RelationField, condition: RelationCondition, nested: Filter)
    | BoolFilter(b: bool)

  // ----- databases, and what a filter means on them -----

  /** The records of each model with their values, the links of each relation, and the values that pass each test. */
  datatype Database = Database(
    records: map<Name, map<Id, map<Name, string>>>, links: map<Name, set<(Id, Id)>>, passes: set<(string, Option<string>)>)

  predicate HasRecord(db: Database, model: Name, id: Id) {
    model in db.records && id in db.records[model]
  }

  function Value(db: Database, model: Name, id: Id, column: Name): Option<string> {
    if HasRecord(db, model, id) && column in db.records[model][id] then Some(db.records[model][id][column]) else None
  }

  /** The links of a relation field, from this side to the other. */
  predicate Linked(db: Database, field: RelationField, from: Id, to: Id) {
    field.relation in db.links && (if field.flipped then (to, from) else (from, to)) in db.links[field.relation]
  }

  ghost predicate Matches(db: Database, f: Filter, model: Name, id: Id) {
    match f
    case And(fs) => forall i :: 0 <= i < |fs| ==> Matches(db, fs[i], model, id)
    case Or(fs) => exists i :: 0 <= i < |fs| && Matches(db, fs[i], model, id)
    case Not(fs) => forall i :: 0 <= i < |fs| ==> !Matches(db, fs[i], model, id)
    case Scalar(column, test) => (test, Value(db, model, id, column)) in db.passes
    case OneRelationIsNull(field) => forall to :: !Linked(db, field, id, to)
    case Relation(field, EveryRelatedRecord, nested) =>
      forall to :: Linked(db, field, id, to) ==> Matches(db, nested, field.relatedModel, to)
    case Relation(field, NoRelatedRecord, nested) =>
      forall to :: Linked(db, field, id, to) ==> !Matches(db, nested, field.relatedModel, to)
    case Relation(field, _, nested) =>
      exists to :: Linked(db, field, id, to) && Matches(db, nested, field.relatedModel, to)
    case BoolFilter(b) => b
  }

  // ----- condition trees, and what they select -----

  datatype AliasMode = Table | Join

  datatype Alias = Alias(counter: nat, mode: AliasMode) {
    function Inc(m: AliasMode): Alias {
      Alias(counter + 1, m)
    }

    function Dec(): Alias {
      Alias(if counter == 0 then 0 else counter - 1, mode)
    }

    function Flip(m: AliasMode): Alias {
      Alias(counter, m)
    }
  }

  /** The columns of a record are its id and its values; those of a link are its two sides. */
  datatype Column = IdOf | ValueOf(name: Name) | ThisSide | OtherSide

  /** A column of the row under an alias, or of the table itself. */
  datatype ColumnRef = ColumnRef(table: Option<Alias>, column: Column)

  datatype Condition =
    | NoCondition
    | NegativeCondition
    | AndAlso(left: Condition, right: Condition)
    | OrElse(left: Condition, right: Condition)
    | Inverted(condition: Condition)
    | Passes(ref: ColumnRef, test: string)
    | IsNull(ref: ColumnRef, field: RelationField)
    | IsNotNull(ref: ColumnRef)
    | InSelection(ref: ColumnRef, negated: bool, select: Select)

  /** One side of the links of a field, joined with the records at the other side or not. */
  datatype Select = Select(field: RelationField, alias: Option<Alias>, join: Option<Alias>, condition: Condition)

  datatype Row = Record(model: Name, id: Id) | Link(from: Id, to: Id)

  type Scope = map<Option<Alias>, Row>

  function IdIn(scope: Scope, ref: ColumnRef): Option<Id> {
    if ref.table !in scope then None
    else
      match (scope[ref.table], ref.column)
      case (Record(_, id), IdOf) => Some(id)
      case (Link(from, _), ThisSide) => Some(from)
      case (Link(_, to), OtherSide) => Some(to)
      case _ => None
  }

  ghost predicate Holds(db: Database, scope: Scope, c: Condition)
    decreases c
  {
    match c
    case NoCondition => true
    case NegativeCondition => false
    case AndAlso(left, right) => Holds(db, scope, left) && Holds(db, scope, right)
    case OrElse(left, right) => Holds(db, scope, left) || Holds(db, scope, right)
    case Inverted(condition) => !Holds(db, scope, condition)
    case Passes(ref, test) =>
      && ref.table in scope && scope[ref.table].Record? && ref.column.ValueOf?
      && (test, Value(db, scope[ref.table].model, scope[ref.table].id, ref.column.name)) in db.passes
    case IsNull(ref, field) =>
      ref.table in scope && scope[ref.table].Record? && forall to :: !Linked(db, field, scope[ref.table].id, to)
    case IsNotNull(ref) => IdIn(scope, ref).Some?
    case InSelection(ref, negated, select) =>
      var id := IdIn(scope, ref);
      id.Some? && ((exists to :: Linked(db, select.field, id.value, to) && Selects(db, scope, select, id.value, to)) <==> !negated)
  }

  /** Whether a select returns the first side of a link. */
  ghost predicate Selects(db: Database, scope: Scope, select: Select, from: Id, to: Id)
    decreases select
  {
    var inner := scope[select.alias := Link(from, to)];
    if select.join.None? then Holds(db, inner, select.condition)
    else
      && HasRecord(db, select.field.relatedModel, to)
      && Holds(db, inner[select.join := Record(select.field.relatedModel, to)], select.condition)
  }

  /** Every column names a row that is in scope and has such a column. */
  predicate WellScoped(scope: map<Option<Alias>, bool>, c: Condition)
    decreases c
  {
    match c
    case NoCondition => true
    case NegativeCondition => true
    case AndAlso(left, right) => WellScoped(scope, left) && WellScoped(scope, right)
    case OrElse(left, right) => WellScoped(scope, left) && WellScoped(scope, right)
    case Inverted(condition) => WellScoped(scope, condition)
    case Passes(ref, _) => InScope(scope, ref)
    case IsNull(ref, _) => InScope(scope, ref)
    case IsNotNull(ref) => InScope(scope, ref)
    case InSelection(ref, _, select) =>
      InScope(scope, ref)
      && var inner := scope[select.alias := false];
         WellScoped(if select.join.None? then inner else inner[select.join := true], select.condition)
  }

  /** In a scope, aliases stand for records or for links. */
  predicate InScope(scope: map<Option<Alias>, bool>, ref: ColumnRef) {
    ref.table in scope && scope[ref.table] == (ref.column.IdOf? || ref.column.ValueOf?)
  }

  // ----- the conversion -----

  function Negates(c: RelationCondition): bool {
    c.EveryRelatedRecord? || c.NoRelatedRecord?
  }

  function InvertIf(c: Condition, b: bool): Condition {
    if b then Inverted(c) else c
  }

  function Compacted(f: Filter): (r: Filter)
    ensures r == f || r < f
  {
    if f.And? && |f.filters| == 1 then f.filters[0]
    else if f.Or? && |f.filters| == 1 then f.filters[0]
    else f
  }

  function AliasedCond(f: Filter, alias: Option<Alias>): Condition
    decreases f
  {
    match f
    case And(fs) => AndFrom(f, 0, alias)
    case Or(fs) => OrFrom(f, 0, alias)
    case Not(fs) => NotFrom(f, 0, alias)
    case Scalar(column, test) => Passes(ColumnRef(alias, ValueOf(column)), test)
    case OneRelationIsNull(field) =>
      if field.inlinedInParent then IsNull(ColumnRef(alias, IdOf), field)
      else InSelection(ColumnRef(alias, IdOf), true, Select(field, alias, None, IsNotNull(ColumnRef(alias, ThisSide))))
    case Relation(field, condition, nested) =>
      var column := ColumnRef(if alias.Some? then Some(alias.value.Dec()) else None, IdOf);
      var select := AliasedSel(f, if alias.Some? then Some(alias.value.Inc(Table)) else None);
      InSelection(column, Negates(condition), select)
    case BoolFilter(b) => if b then NoCondition else NegativeCondition
  }

  /** The filters from a position on, the last one innermost. */
  function AndFrom(f: Filter, i: nat, alias: Option<Alias>): Condition
    requires f.And? && i <= |f.filters|
    decreases f, 0, |f.filters| - i
  {
    if i == |f.filters| then NoCondition
    else if i == |f.filters| - 1 then AliasedCond(f.filters[i], alias)
    else AndAlso(AliasedCond(f.filters[i], alias), AndFrom(f, i + 1, alias))
  }

  function OrFrom(f: Filter, i: nat, alias: Option<Alias>): Condition
    requires f.Or? && i <= |f.filters|
    decreases f, 0, |f.filters| - i
  {
    if i == |f.filters| then NegativeCondition
    else if i == |f.filters| - 1 then AliasedCond(f.filters[i], alias)
    else OrElse(AliasedCond(f.filters[i], alias), OrFrom(f, i + 1, alias))
  }

  function NotFrom(f: Filter, i: nat, alias: Option<Alias>): Condition
    requires f.Not? && i <= |f.filters|
    decreases f, 0, |f.filters| - i
  {
    if i == |f.filters| then NoCondition
    else if i == |f.filters| - 1 then Inverted(AliasedCond(f.filters[i], alias))
    else AndAlso(Inverted(AliasedCond(f.filters[i], alias)), NotFrom(f, i + 1, alias))
  }

  function AliasedSel(f: Filter, outer: Option<Alias>): Select
    requires f.Relation?
    decreases f, 0
  {
    var alias := if outer.Some? then outer.value else Alias(0, Table);
    var compacted := Compacted(f.nested);
    if compacted.Relation? then
      var sub := AliasedSel(compacted, Some(alias.Inc(Table)));
      var tree := InSelection(ColumnRef(Some(alias), OtherSide), Negates(compacted.condition), sub);
      Select(f.field, Some(alias), None, InvertIf(tree, f.condition.EveryRelatedRecord?))
    else
      var tree := AliasedCond(compacted, Some(alias.Flip(Join)));
      Select(f.field, Some(alias.Flip(Table)), Some(alias.Flip(Join)), InvertIf(tree, f.condition.EveryRelatedRecord?))
  }

  // ----- the filters whose aliases are right -----

  /** Below the first relation, no relation filter is part of a larger nested filter. */
  predicate Convertible(f: Filter, depth: Option<nat>)
    decreases f
  {
    match f
    case And(fs) => forall i :: 0 <= i < |fs| ==> Convertible(fs[i], depth)
    case Or(fs) => forall i :: 0 <= i < |fs| ==> Convertible(fs[i], depth)
    case Not(fs) => forall i :: 0 <= i < |fs| ==> Convertible(fs[i], depth)
    case Relation(_, _, _) => (depth.None? || depth.value == 0) && ConvertibleBelow(f, if depth.None? then 0 else 1)
    case _ => true
  }

  predicate ConvertibleBelow(f: Filter, depth: nat)
    requires f.Relation?
    decreases f, 0
  {
    var compacted := Compacted(f.nested);
    if compacted.Relation? then ConvertibleBelow(compacted, depth + 1) else Convertible(compacted, Some(depth))
  }

  /** Every link of a relation that a filter mentions leads to a record. */
  ghost predicate Integral(db: Database, f: Filter) {
    match f
    case And(fs) => forall i :: 0 <= i < |fs| ==> Integral(db, fs[i])
    case Or(fs) => forall i :: 0 <= i < |fs| ==> Integral(db, fs[i])
    case Not(fs) => forall i :: 0 <= i < |fs| ==> Integral(db, fs[i])
    case Relation(field, _, nested) =>
      && (forall from, to :: Linked(db, field, from, to) ==> HasRecord(db, field.relatedModel, to))
      && Integral(db, nested)
    case _ => true
  }

  function Depth(alias: Option<Alias>): Option<nat> {
    if alias.None? then None else Some(alias.value.counter)
  }

  /** The row that a filter is about, under its alias. */
  predicate About(scope: Scope, alias: Option<Alias>, model: Name, id: Id) {
    && (alias.Some? ==> alias.value.mode.Join?)
    && alias in scope && scope[alias] == Record(model, id)
  }

  // ----- meaning is kept -----

  lemma {:induction false} CompactedMeans(db: Database, f: Filter, model: Name, id: Id)
    ensures Matches(db, Compacted(f), model, id) <==> Matches(db, f, model, id)
    ensures Integral(db, f) ==> Integral(db, Compacted(f))
  {
  }

  lemma {:induction false} CondMeans(db: Database, scope: Scope, f: Filter, alias: Option<Alias>, model: Name, id: Id)
    requires Convertible(f, Depth(alias)) && Integral(db, f) && About(scope, alias, model, id)
    ensures Holds(db, scope, AliasedCond(f, alias)) <==> Matches(db, f, model, id)
    decreases f
  {
    match f
    case And(fs) => AndMeans(db, scope, f, 0, alias, model, id);
    case Or(fs) => OrMeans(db, scope, f, 0, alias, model, id);
    case Not(fs) => NotMeans(db, scope, f, 0, alias, model, id);
    case Scalar(column, test) =>
    case OneRelationIsNull(field) => NullMeans(db, scope, field, alias, model, id);
    case Relation(field, condition, nested) =>
      var outer := if alias.Some? then Some(alias.value.Inc(Table)) else None;
      var ref := ColumnRef(if alias.Some? then Some(alias.value.Dec()) else None, IdOf);
      assert ref.table == alias;
      RelationMeans(db, scope, ref, f, outer, model, id);
    case BoolFilter(b) =>
  }

  lemma {:induction false} AndMeans(db: Database, scope: Scope, f: Filter, i: nat, alias: Option<Alias>, model: Name, id: Id)
    requires f.And? && i <= |f.filters|
    requires Convertible(f, Depth(alias)) && Integral(db, f) && About(scope, alias, model, id)
    ensures Holds(db, scope, AndFrom(f, i, alias)) <==> forall j :: i <= j < |f.filters| ==> Matches(db, f.filters[j], model, id)
    decreases f, 0, |f.filters| - i
  {
    if i < |f.filters| {
      CondMeans(db, scope, f.filters[i], alias, model, id);
      AndMeans(db, scope, f, i + 1, alias, model, id);
    }
  }

  lemma {:induction false} OrMeans(db: Database, scope: Scope, f: Filter, i: nat, alias: Option<Alias>, model: Name, id: Id)
    requires f.Or? && i <= |f.filters|
    requires Convertible(f, Depth(alias)) && Integral(db, f) && About(scope, alias, model, id)
    ensures Holds(db, scope, OrFrom(f, i, alias)) <==> exists j :: i <= j < |f.filters| && Matches(db, f.filters[j], model, id)
    decreases f, 0, |f.filters| - i
  {
    if i < |f.filters| {
      CondMeans(db, scope, f.filters[i], alias, model, id);
      OrMeans(db, scope, f, i + 1, alias, model, id);
    }
  }

  lemma {:induction false} NotMeans(db: Database, scope: Scope, f: Filter, i: nat, alias: Option<Alias>, model: Name, id: Id)
    requires f.Not? && i <= |f.filters|
    requires Convertible(f, Depth(alias)) && Integral(db, f) && About(scope, alias, model, id)
    ensures Holds(db, scope, NotFrom(f, i, alias)) <==> forall j :: i <= j < |f.filters| ==> !Matches(db, f.filters[j], model, id)
    decreases f, 0, |f.filters| - i
  {
    if i < |f.filters| {
      CondMeans(db, scope, f.filters[i], alias, model, id);
      NotMeans(db, scope, f, i + 1, alias, model, id);
    }
  }

  lemma {:induction false} NullMeans(db: Database, scope: Scope, field: RelationField, alias: Option<Alias>, model: Name, id: Id)
    requires About(scope, alias, model, id)
    ensures Holds(db, scope, AliasedCond(OneRelationIsNull(field), alias)) <==> forall to :: !Linked(db, field, id, to)
  {
    if !field.inlinedInParent {
      var select := Select(field, alias, None, IsNotNull(ColumnRef(alias, ThisSide)));
      assert AliasedCond(OneRelationIsNull(field), alias) == InSelection(ColumnRef(alias, IdOf), true, select);
      forall to
        ensures Selects(db, scope, select, id, to)
      {
        var inner := scope[alias := Link(id, to)];
        assert Holds(db, inner, IsNotNull(ColumnRef(alias, ThisSide)));
      }
    }
  }

  /** A comparison with the sub-select of a relation filter means what the filter does. */
  lemma {:induction false} RelationMeans(db: Database, scope: Scope, ref: ColumnRef, f: Filter, outer: Option<Alias>, model: Name, id: Id)
    requires f.Relation? && ConvertibleBelow(f, if outer.None? then 0 else outer.value.counter) && Integral(db, f)
    requires (outer.Some? ==> outer.value.mode.Table?) && IdIn(scope, ref) == Some(id)
    ensures Holds(db, scope, InSelection(ref, Negates(f.condition), AliasedSel(f, outer))) <==> Matches(db, f, model, id)
    decreases f, 1
  {
    hide AliasedSel, IdIn, Linked;
    var select := AliasedSel(f, outer);
    assert select.field == f.field by {
      SelectsFrom(f, outer);
    }
    forall to | Linked(db, f.field, id, to)
      ensures Selects(db, scope, select, id, to) <==> (Matches(db, f.nested, f.field.relatedModel, to) <==> !f.condition.EveryRelatedRecord?)
    {
      SelMeans(db, scope, f, outer, id, to);
    }
    hide Selects;
  }

  lemma {:induction false} SelectsFrom(f: Filter, outer: Option<Alias>)
    requires f.Relation?
    ensures AliasedSel(f, outer).field == f.field
  {
  }

  /** The sub-select of a relation filter returns the links whose other side matches, or fails to. */
  lemma {:induction false} SelMeans(db: Database, scope: Scope, f: Filter, outer: Option<Alias>, from: Id, to: Id)
    requires f.Relation? && ConvertibleBelow(f, if outer.None? then 0 else outer.value.counter) && Integral(db, f)
    requires (outer.Some? ==> outer.value.mode.Table?) && Linked(db, f.field, from, to)
    ensures Selects(db, scope, AliasedSel(f, outer), from, to)
            <==> (Matches(db, f.nested, f.field.relatedModel, to) <==> !f.condition.EveryRelatedRecord?)
    decreases f, 0
  {
    hide Linked, Compacted;
    var alias := if outer.Some? then outer.value else Alias(0, Table);
    var compacted := Compacted(f.nested);
    var select := AliasedSel(f, outer);
    var model := f.field.relatedModel;
    CompactedMeans(db, f.nested, model, to);
    var inner := scope[Some(alias) := Link(from, to)];
    if compacted.Relation? {
      var ref := ColumnRef(Some(alias), OtherSide);
      var tree := InSelection(ref, Negates(compacted.condition), AliasedSel(compacted, Some(alias.Inc(Table))));
      RelationMeans(db, inner, ref, compacted, Some(alias.Inc(Table)), model, to);
      assert select == Select(f.field, Some(alias), None, InvertIf(tree, f.condition.EveryRelatedRecord?));
      hide Matches;
      assert Holds(db, inner, InvertIf(tree, f.condition.EveryRelatedRecord?)) <==> (Holds(db, inner, tree) <==> !f.condition.EveryRelatedRecord?);
    } else {
      var join := Some(alias.Flip(Join));
      var joined := inner[join := Record(model, to)];
      var tree := AliasedCond(compacted, join);
      CondMeans(db, joined, compacted, join, model, to);
      assert select == Select(f.field, Some(alias), join, InvertIf(tree, f.condition.EveryRelatedRecord?));
      hide Matches;
      assert Holds(db, joined, InvertIf(tree, f.condition.EveryRelatedRecord?)) <==> (Holds(db, joined, tree) <==> !f.condition.EveryRelatedRecord?);
    }
  }

  /** A convertible filter selects the same records as its condition tree. */
  lemma {:induction false} ConversionKeepsMeaning(db: Database, f: Filter, model: Name, id: Id)
    requires Convertible(f, None) && Integral(db, f)
    ensures Holds(db, map[None := Record(model, id)], AliasedCond(f, None)) <==> Matches(db, f, model, id)
  {
    CondMeans(db, map[None := Record(model, id)], f, None, model, id);
  }
}
