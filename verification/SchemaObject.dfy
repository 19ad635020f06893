/** The datamodel as standardisation changes it in place. */
module SchemaObject {
  import opened Wrappers
  import opened Names
  import opened Relations
  import opened BackRelations
  import opened Standardise

  class Schema {
    var models: Datamodel

    constructor (models: Datamodel)
      ensures this.models == models
    {
      this.models := models;
    }

    /** Every field is compared with a copy of the datamodel, and then written. */
    method SetRelationToFieldToIdIfMissing()
      requires WellFormed(models) && Paired(models)
      modifies this
      ensures models == SetToFields(old(models))
    {
      hide MapModels, MapFields, ToFieldsOf;
      var copy := models;
      assert copy[..0] == [] && |MapModels([], ToFieldsOf(copy))| == 0 by { MapConcat([], [], ToFieldsOf(copy)); }
      for i := 0 to |copy|
        invariant models == MapModels(copy[..i], ToFieldsOf(copy)) + copy[i..]
      {
        MappedPrefix(copy, i, ToFieldsOf(copy));
        ghost var done := MapModels(copy[..i], ToFieldsOf(copy));
        assert models[i] == copy[i] && copy[i..][1..] == copy[i + 1..];
        var fields := SetFields(copy, models[i]);
        NextReplaced(done, copy[i..], MapModel(copy[i], ToFieldsOf(copy)));
        models := models[i := models[i].(fields := fields)];
      }
      assert copy[..|copy|] == copy && copy[|copy|..] == [];
      assert models == MapModels(copy, ToFieldsOf(copy));
    }

    static method SetFields(copy: Datamodel, m: Model) returns (fields: seq<Field>)
      ensures fields == MapFields(m, m.fields, ToFieldsOf(copy))
    {
      hide MapFields;
      fields := m.fields;
      assert m.fields[..0] == [] && MapFields(m, [], ToFieldsOf(copy)) == [] by { MapFieldsConcat(m, [], [], ToFieldsOf(copy)); }
      for j := 0 to |m.fields|
        invariant fields == MapFields(m, m.fields[..j], ToFieldsOf(copy)) + m.fields[j..]
      {
        MappedFieldsPrefix(m, j, ToFieldsOf(copy));
        ghost var done := MapFields(m, m.fields[..j], ToFieldsOf(copy));
        assert fields[j] == m.fields[j] && m.fields[j..][1..] == m.fields[j + 1..];
        NextReplaced(done, m.fields[j..], ToFieldsOf(copy)(m, m.fields[j]));
        assert ToFieldsOf(copy)(m, m.fields[j]) == WithToFields(copy, m, m.fields[j]) by { AppliesToFields(copy, m, m.fields[j]); }
        fields := fields[j := WithToFields(copy, m, fields[j])];
      }
      assert m.fields[..|m.fields|] == m.fields && m.fields[|m.fields|..] == [];
      assert fields == MapFields(m, m.fields, ToFieldsOf(copy));
    }

    method NameUnnamed()
      requires WellFormed(models) && Paired(models)
      modifies this
      ensures models == MapModels(old(models), NameReferred(old(models)))
    {
      NamingIsComplete(models);
      var unnamed := AllUnnamed(models, models);
      for i := 0 to |unnamed|
        invariant NameAll(models, unnamed[i..]) == NameUnnamedRelations(old(models))
      {
        assert unnamed[i..][0] == unnamed[i] && unnamed[i..][1..] == unnamed[i + 1..];
        models := NameOne(models, unnamed[i]).value;
      }
      assert unnamed[|unnamed|..] == [];
    }

    /** A naming conflict is an error, and leaves relations unpaired. */
    method Standardise(naming: Naming) returns (ok: bool)
      requires WellFormed(models) && Validated(models)
      modifies this
      ensures ok <==> NamesFree(naming, old(models))
      ensures ok ==>
                && Some(models) == Standardised(naming, old(models)) && WellFormed(models)
                && (AllNamed(models) <==> AllGetReferences(naming, old(models)))
                && (Paired(models) <==> NoNameClash(naming, old(models)))
    {
      MissingAreKnown(naming, models);
      StandardisedIsCompleteIff(naming, models);
      AddingSucceedsIff(naming, models);
      var paired := AddMissing(naming, models);
      if paired.None? {
        return false;
      }
      Parts(naming, models);
      hide AddMissingBackRelations, Paired, WellFormed, SetToFields, MapModels, Standardised, NamesFree, AllNamed, AllGetReferences, NoNameClash;
      models := paired.value;
      SetRelationToFieldToIdIfMissing();
      NameUnnamed();
      ok := true;
    }
  }

  lemma {:induction false} MissingAreKnown(naming: Naming, ms: Datamodel)
    requires WellFormed(ms)
    ensures forall b :: b in AllMissing(naming, ms, ms) ==> FindModel(ms, b.model).Some?
  {
    forall b | b in AllMissing(naming, ms, ms) ensures FindModel(ms, b.model).Some? {
      ListedAll(naming, ms, ms, b);
      var m :| m in ms && AddedBy(naming, ms, m, b);
      var f :| f in m.fields && Adds(naming, ms, m, f, b);
    }
  }

  lemma {:induction false} AppliesToFields(ms: Datamodel, m: Model, f: Field)
    ensures ToFieldsOf(ms)(m, f) == WithToFields(ms, m, f)
  {
  }

  lemma {:induction false} NextReplaced<T>(done: seq<T>, rest: seq<T>, x: T)
    requires rest != []
    ensures (done + rest)[|done| := x] == done + [x] + rest[1..]
  {
  }

  lemma {:induction false} MappedPrefix(ms: Datamodel, i: nat, change: Change)
    requires i < |ms|
    ensures |MapModels(ms[..i], change)| == i
    ensures MapModels(ms[..i + 1], change) == MapModels(ms[..i], change) + [MapModel(ms[i], change)]
  {
    assert ms[..i + 1] == ms[..i] + [ms[i]];
    MapConcat(ms[..i], [ms[i]], change);
    assert [ms[i]][1..] == [];
  }

  lemma {:induction false} MapConcat(xs: Datamodel, ys: Datamodel, change: Change)
    ensures MapModels(xs + ys, change) == MapModels(xs, change) + MapModels(ys, change)
    ensures |MapModels(xs, change)| == |xs|
  {
    if xs == [] {
      assert xs + ys == ys;
    } else {
      assert (xs + ys)[0] == xs[0] && (xs + ys)[1..] == xs[1..] + ys;
      MapConcat(xs[1..], ys, change);
    }
  }

  lemma {:induction false} MappedFieldsPrefix(m: Model, j: nat, change: Change)
    requires j < |m.fields|
    ensures |MapFields(m, m.fields[..j], change)| == j
    ensures MapFields(m, m.fields[..j + 1], change) == MapFields(m, m.fields[..j], change) + [change(m, m.fields[j])]
  {
    assert m.fields[..j + 1] == m.fields[..j] + [m.fields[j]];
    MapFieldsConcat(m, m.fields[..j], [m.fields[j]], change);
    assert [m.fields[j]][1..] == [];
  }

  lemma {:induction false} MapFieldsConcat(m: Model, xs: seq<Field>, ys: seq<Field>, change: Change)
    ensures MapFields(m, xs + ys, change) == MapFields(m, xs, change) + MapFields(m, ys, change)
    ensures |MapFields(m, xs, change)| == |xs|
  {
    if xs == [] {
      assert xs + ys == ys;
    } else {
      assert (xs + ys)[0] == xs[0] && (xs + ys)[1..] == xs[1..] + ys;
      MapFieldsConcat(m, xs[1..], ys, change);
    }
  }
}
