/** Query values, parsed and validated against input types that may refer to each other. */
module InputValues {
  import opened Wrappers
  import opened Names

  datatype QueryValue =
    | Int(i: int)
    | Float(f: real)
    | String(s: string)
    | Boolean(b: bool)
    | Null
    | EnumValue(e: Name)
    | List(values: seq<QueryValue>)
    | Object(entries: seq<Entry>)

  datatype Entry = Entry(key: Name, value: QueryValue)

  datatype ScalarType = StringType | IntType | FloatType | BooleanType | EnumType(values: seq<Name>) | DateTimeType | JsonType | UuidType | IdType

  /** An object type is referred to by its name. */
  datatype InputType =
    | OfEnum(values: seq<Name>)
    | ListOf(inner: InputType)
    | OfObject(name: Name)
    | Opt(inner: InputType)
    | OfScalar(scalar: ScalarType)

  datatype InputField = InputField(name: Name, fieldType: InputType, default: Option<PrismaValue>)

  /** The fields of each object type, and the texts that are dates, JSON or UUIDs. */
  datatype Schema = Schema(objects: map<Name, seq<InputField>>, readable: set<(ScalarType, string)>)

  datatype PrismaValue =
    | PNull
    | PString(s: string)
    | PDateTime(s: string)
    | PJson(s: string)
    | PUuid(s: string)
    | PFloat(f: real)
    | PInt(i: int)
    | PBoolean(b: bool)
    | PEnum(e: Name)
    | PId(id: int)

  datatype Parsed = Single(value: PrismaValue) | ParsedList(items: seq<Parsed>) | ParsedMap(fields: seq<ParsedField>)

  datatype ParsedField = ParsedField(key: Name, value: Parsed)

  // ----- sizes -----

  /** The size of a value; null, which stands in for what is missing, has none. */
  function Size(v: QueryValue): nat
    decreases v
  {
    match v
    case Null => 0
    case List(values) => 1 + SizeOfAll(values)
    case Object(entries) => 2 + SizeOfEntries(entries)
    case _ => 1
  }

  function SizeOfAll(values: seq<QueryValue>): nat
    decreases values
  {
    if values == [] then 0 else 1 + Size(values[0]) + SizeOfAll(values[1..])
  }

  function SizeOfEntries(entries: seq<Entry>): nat
    decreases entries
  {
    if entries == [] then 0 else 1 + Size(entries[0].value) + SizeOfEntries(entries[1..])
  }

  // ----- scalars -----

  const MAX_I64 := 0x7fff_ffff_ffff_ffff
  const MIN_I64 := -0x8000_0000_0000_0000

  /** A float cast to an integer: cut towards zero, and to the range of 64 bits. */
  function AsI64(f: real): int {
    var cut := if f >= 0.0 then f.Floor else -((-f).Floor);
    if cut > MAX_I64 then MAX_I64 else if cut < MIN_I64 then MIN_I64 else cut
  }

  /** A negative integer cast to an unsigned one. */
  function AsUsize(i: int): int {
    i % 0x1_0000_0000_0000_0000
  }

  function ParseScalar(schema: Schema, v: QueryValue, t: ScalarType): Option<PrismaValue> {
    match (v, t)
    case (Null, _) => Some(PNull)
    case (String(s), StringType) => Some(PString(s))
    case (String(s), DateTimeType) => if (t, s) in schema.readable then Some(PDateTime(s)) else None
    case (String(s), JsonType) => if (t, s) in schema.readable then Some(PJson(s)) else None
    case (String(s), UuidType) => if (t, s) in schema.readable then Some(PUuid(s)) else None
    case (Int(i), FloatType) => Some(PFloat(i as real))
    case (Int(i), IntType) => Some(PInt(i))
    case (Float(f), FloatType) => Some(PFloat(f))
    case (Float(f), IntType) => Some(PInt(AsI64(f)))
    case (Boolean(b), BooleanType) => Some(PBoolean(b))
    case (EnumValue(e), EnumType(values)) => if e in values then Some(PEnum(e)) else None
    case (String(s), IdType) => if (UuidType, s) in schema.readable then Some(PUuid(s)) else Some(PString(s))
    case (Int(i), IdType) => Some(PId(AsUsize(i)))
    case _ => None
  }

  // ----- the parser -----

  function FindField(fields: seq<InputField>, n: Name): (r: Option<InputField>)
    ensures r.Some? ==> r.value in fields && r.value.name == n
    ensures r.None? ==> forall f :: f in fields ==> f.name != n
  {
    if fields == [] then None else if fields[0].name == n then Some(fields[0]) else FindField(fields[1..], n)
  }

  function FindEntry(entries: seq<Entry>, n: Name): (r: Option<Entry>)
    ensures r.Some? ==> r.value in entries && r.value.key == n
    ensures r.None? ==> forall e :: e in entries ==> e.key != n
  {
    if entries == [] then None else if entries[0].key == n then Some(entries[0]) else FindEntry(entries[1..], n)
  }

  function FieldsOf(schema: Schema, n: Name): seq<InputField> {
    if n in schema.objects then schema.objects[n] else []
  }

  function ParseInputValue(schema: Schema, v: QueryValue, t: InputType): Option<Parsed>
    decreases Size(v), t, 0
  {
    match (v, t)
    case (Null, Opt(_)) => Some(Single(PNull))
    case (_, Opt(inner)) => ParseInputValue(schema, v, inner)
    case (Null, _) => None
    case (_, OfScalar(scalar)) =>
      var p :- ParseScalar(schema, v, scalar);
      Some(Single(p))
    case (EnumValue(_), OfEnum(values)) =>
      var p :- ParseScalar(schema, v, EnumType(values));
      Some(Single(p))
    case (List(values), ListOf(inner)) =>
      var items :- ParseList(schema, values, inner);
      Some(ParsedList(items))
    case (_, ListOf(inner)) =>
      var item :- ParseInputValue(schema, v, inner);
      Some(ParsedList([item]))
    case (Object(entries), OfObject(n)) =>
      var defaults :- ParseMissing(schema, FieldsOf(schema, n), entries);
      var given :- ParseEntries(schema, entries, FieldsOf(schema, n));
      Some(ParsedMap(given + defaults))
    case _ => None
  }

  function ParseList(schema: Schema, values: seq<QueryValue>, t: InputType): Option<seq<Parsed>>
    decreases SizeOfAll(values), t, 1
  {
    if values == [] then Some([])
    else
      var item :- ParseInputValue(schema, values[0], t);
      var items :- ParseList(schema, values[1..], t);
      Some([item] + items)
  }

  /** The defaults of the fields that are not given; the others must do without a value. */
  function ParseMissing(schema: Schema, fields: seq<InputField>, entries: seq<Entry>): Option<seq<ParsedField>>
    decreases 1, OfEnum([]), |fields|
  {
    if fields == [] then Some([])
    else if FindEntry(entries, fields[0].name).Some? then ParseMissing(schema, fields[1..], entries)
    else if fields[0].default.Some? then
      var rest :- ParseMissing(schema, fields[1..], entries);
      Some([ParsedField(fields[0].name, Single(fields[0].default.value))] + rest)
    else
      var ignored :- ParseInputValue(schema, Null, fields[0].fieldType);
      ParseMissing(schema, fields[1..], entries)
  }

  function ParseEntries(schema: Schema, entries: seq<Entry>, fields: seq<InputField>): Option<seq<ParsedField>>
    decreases SizeOfEntries(entries), OfEnum([]), 1
  {
    if entries == [] then Some([])
    else
      var field :- FindField(fields, entries[0].key);
      var value :- ParseInputValue(schema, entries[0].value, field.fieldType);
      var rest :- ParseEntries(schema, entries[1..], fields);
      Some([ParsedField(entries[0].key, value)] + rest)
  }

  // ----- what conforms -----

  predicate ScalarConforms(schema: Schema, v: QueryValue, t: ScalarType) {
    match t
    case StringType => v.String?
    case IntType => v.Int? || v.Float?
    case FloatType => v.Int? || v.Float?
    case BooleanType => v.Boolean?
    case EnumType(values) => v.EnumValue? && v.e in values
    case IdType => v.String? || v.Int?
    case _ => v.String? && (t, v.s) in schema.readable
  }

  /** A value is right for a type. */
  predicate Conforms(schema: Schema, v: QueryValue, t: InputType)
    decreases Size(v), t, 0
  {
    if v.Null? then t.Opt?
    else
      match t
      case Opt(inner) => Conforms(schema, v, inner)
      case OfScalar(scalar) => ScalarConforms(schema, v, scalar)
      case OfEnum(values) => v.EnumValue? && v.e in values
      case ListOf(inner) =>
        if v.List? then forall i :: 0 <= i < |v.values| ==> (SizeOfItem(v.values, i); Conforms(schema, v.values[i], inner))
        else Conforms(schema, v, inner)
      case OfObject(n) =>
        && v.Object?
        && (forall i :: 0 <= i < |v.entries| ==>
              var field := FindField(FieldsOf(schema, n), v.entries[i].key);
              field.Some? && (SizeOfEntry(v.entries, i); Conforms(schema, v.entries[i].value, field.value.fieldType)))
        && forall f :: f in FieldsOf(schema, n) ==>
             FindEntry(v.entries, f.name).Some? || f.default.Some? || f.fieldType.Opt?
  }

  lemma {:induction false} SizeOfItem(values: seq<QueryValue>, i: nat)
    requires i < |values|
    ensures Size(values[i]) < SizeOfAll(values)
  {
    if i > 0 {
      SizeOfItem(values[1..], i - 1);
    }
  }

  lemma {:induction false} SizeOfEntry(entries: seq<Entry>, i: nat)
    requires i < |entries|
    ensures Size(entries[i].value) < SizeOfEntries(entries)
  {
    if i > 0 {
      SizeOfEntry(entries[1..], i - 1);
    }
  }

  /** The parser accepts a value if and only if it is right for the type. */
  lemma {:induction false} ParsesIffConforms(schema: Schema, v: QueryValue, t: InputType)
    ensures ParseInputValue(schema, v, t).Some? <==> Conforms(schema, v, t)
    decreases Size(v), t, 0
  {
    if !v.Null? {
      match t
      case Opt(inner) => ParsesIffConforms(schema, v, inner);
      case OfScalar(scalar) => ScalarParsesIff(schema, v, scalar);
      case OfEnum(values) =>
      case ListOf(inner) =>
        if v.List? {
          ListParsesIff(schema, v.values, inner);
        } else {
          ParsesIffConforms(schema, v, inner);
        }
      case OfObject(n) =>
        if v.Object? {
          EntriesParseIff(schema, v.entries, FieldsOf(schema, n));
          MissingParsesIff(schema, FieldsOf(schema, n), v.entries);
        }
    }
  }

  lemma {:induction false} ScalarParsesIff(schema: Schema, v: QueryValue, t: ScalarType)
    requires !v.Null?
    ensures ParseScalar(schema, v, t).Some? <==> ScalarConforms(schema, v, t)
  {
  }

  lemma {:induction false} ListParsesIff(schema: Schema, values: seq<QueryValue>, t: InputType)
    ensures ParseList(schema, values, t).Some? <==> forall i :: 0 <= i < |values| ==> Conforms(schema, values[i], t)
    decreases SizeOfAll(values), t, 1
  {
    hide Conforms;
    if values != [] {
      ParsesIffConforms(schema, values[0], t);
      ListParsesIff(schema, values[1..], t);
      assert forall i :: 0 < i < |values| ==> values[i] == values[1..][i - 1];
    }
  }

  predicate EntryConforms(schema: Schema, e: Entry, fields: seq<InputField>) {
    FindField(fields, e.key).Some? && Conforms(schema, e.value, FindField(fields, e.key).value.fieldType)
  }

  lemma {:induction false} EntriesParseIff(schema: Schema, entries: seq<Entry>, fields: seq<InputField>)
    ensures ParseEntries(schema, entries, fields).Some? <==> forall i :: 0 <= i < |entries| ==> EntryConforms(schema, entries[i], fields)
    decreases SizeOfEntries(entries), OfEnum([]), 1
  {
    hide Conforms;
    if entries != [] {
      if FindField(fields, entries[0].key).Some? {
        ParsesIffConforms(schema, entries[0].value, FindField(fields, entries[0].key).value.fieldType);
      }
      EntriesParseIff(schema, entries[1..], fields);
      assert forall i :: 0 < i < |entries| ==> entries[i] == entries[1..][i - 1];
    }
  }

  lemma {:induction false} MissingParsesIff(schema: Schema, fields: seq<InputField>, entries: seq<Entry>)
    ensures ParseMissing(schema, fields, entries).Some?
            <==> forall f :: f in fields ==> FindEntry(entries, f.name).Some? || f.default.Some? || f.fieldType.Opt?
    decreases |fields|
  {
    if fields != [] {
      MissingParsesIff(schema, fields[1..], entries);
      assert fields == [fields[0]] + fields[1..];
    }
  }

  // ----- the shape of what is parsed -----

  /** A text of a type is readable as such; that of an id is a UUID if and only if it is readable as one. */
  predicate ValueFits(schema: Schema, p: PrismaValue, t: ScalarType) {
    match t
    case StringType => p.PString?
    case IntType => p.PInt?
    case FloatType => p.PFloat?
    case BooleanType => p.PBoolean?
    case EnumType(values) => p.PEnum? && p.e in values
    case DateTimeType => p.PDateTime? && (DateTimeType, p.s) in schema.readable
    case JsonType => p.PJson? && (JsonType, p.s) in schema.readable
    case UuidType => p.PUuid? && (UuidType, p.s) in schema.readable
    case IdType =>
      match p
      case PUuid(s) => (UuidType, s) in schema.readable
      case PString(s) => (UuidType, s) !in schema.readable
      case _ => p.PId?
  }

  /** A parsed value has the shape of a type; an object has a value for each field that has a default. */
  predicate Fits(schema: Schema, r: Parsed, t: InputType)
    decreases r, t
  {
    match t
    case Opt(inner) => r == Single(PNull) || Fits(schema, r, inner)
    case OfScalar(scalar) => r.Single? && ValueFits(schema, r.value, scalar)
    case OfEnum(values) => r.Single? && r.value.PEnum? && r.value.e in values
    case ListOf(inner) => r.ParsedList? && forall i :: 0 <= i < |r.items| ==> Fits(schema, r.items[i], inner)
    case OfObject(n) =>
      && r.ParsedMap?
      && (forall i, j :: 0 <= i < j < |r.fields| ==> r.fields[i].key != r.fields[j].key)
      && (forall i :: 0 <= i < |r.fields| ==>
            var field := FindField(FieldsOf(schema, n), r.fields[i].key);
            field.Some? && Fits(schema, r.fields[i].value, field.value.fieldType))
      && forall f :: f in FieldsOf(schema, n) && (f.default.Some? || !f.fieldType.Opt?) ==> HasKey(r.fields, f.name)
  }

  predicate HasKey(fields: seq<ParsedField>, n: Name) {
    exists i :: 0 <= i < |fields| && fields[i].key == n
  }

  /** No object of a value has a key twice. */
  predicate WellKeyed(v: QueryValue) {
    match v
    case List(values) => forall i :: 0 <= i < |values| ==> WellKeyed(values[i])
    case Object(entries) =>
      && DistinctKeys(entries)
      && forall i :: 0 <= i < |entries| ==> WellKeyed(entries[i].value)
    case _ => true
  }

  predicate DistinctKeys(entries: seq<Entry>) {
    forall i, j :: 0 <= i < j < |entries| ==> entries[i].key != entries[j].key
  }

  predicate DistinctFields(fields: seq<InputField>) {
    forall i, j :: 0 <= i < j < |fields| ==> fields[i].name != fields[j].name
  }

  /** Fields have unique names, and defaults of their own types. */
  ghost predicate WellTyped(schema: Schema) {
    forall n :: n in schema.objects ==>
      && DistinctFields(schema.objects[n])
      && forall f :: f in schema.objects[n] && f.default.Some? ==> Fits(schema, Single(f.default.value), f.fieldType)
  }

  lemma {:induction false} FieldIsFound(fields: seq<InputField>, f: InputField)
    requires DistinctFields(fields) && f in fields
    ensures FindField(fields, f.name) == Some(f)
  {
    var i :| 0 <= i < |fields| && fields[i] == f;
    var g := FindField(fields, f.name).value;
    var j :| 0 <= j < |fields| && fields[j] == g;
  }

  /** What is parsed has the shape of the type. */
  lemma {:induction false} ParsedFits(schema: Schema, v: QueryValue, t: InputType)
    requires WellTyped(schema) && WellKeyed(v) && ParseInputValue(schema, v, t).Some?
    ensures Fits(schema, ParseInputValue(schema, v, t).value, t)
    decreases Size(v), t, 1
  {
    if !v.Null? {
      match t
      case Opt(inner) => ParsedFits(schema, v, inner);
      case OfScalar(scalar) => ScalarFits(schema, v, scalar);
      case OfEnum(values) =>
      case ListOf(inner) =>
        if v.List? {
          ListFits(schema, v.values, inner);
        } else {
          ParsedFits(schema, v, inner);
        }
      case OfObject(n) => ObjectFits(schema, v, n);
    }
  }

  lemma {:induction false} ScalarFits(schema: Schema, v: QueryValue, t: ScalarType)
    requires !v.Null? && ParseScalar(schema, v, t).Some?
    ensures ValueFits(schema, ParseScalar(schema, v, t).value, t)
  {
  }

  lemma {:induction false} ListFits(schema: Schema, values: seq<QueryValue>, t: InputType)
    requires WellTyped(schema) && ParseList(schema, values, t).Some?
    requires forall i :: 0 <= i < |values| ==> WellKeyed(values[i])
    ensures var items := ParseList(schema, values, t).value;
            |items| == |values| && forall i :: 0 <= i < |items| ==> Fits(schema, items[i], t)
    decreases SizeOfAll(values), t, 1
  {
    hide WellTyped, Fits, WellKeyed, ParseInputValue;
    if values != [] {
      ParsedFits(schema, values[0], t);
      ListFits(schema, values[1..], t);
    }
  }

  /** Every given entry is parsed under its key. */
  lemma {:induction false} EntriesFit(schema: Schema, entries: seq<Entry>, fields: seq<InputField>)
    requires WellTyped(schema) && ParseEntries(schema, entries, fields).Some?
    requires forall i :: 0 <= i < |entries| ==> WellKeyed(entries[i].value)
    ensures var given := ParseEntries(schema, entries, fields).value;
            && |given| == |entries|
            && forall i :: 0 <= i < |given| ==>
                 var field := FindField(fields, given[i].key);
                 given[i].key == entries[i].key && field.Some? && Fits(schema, given[i].value, field.value.fieldType)
    decreases SizeOfEntries(entries), OfEnum([]), 1
  {
    hide WellTyped, Fits, WellKeyed, ParseInputValue;
    if entries != [] {
      ParsedFits(schema, entries[0].value, FindField(fields, entries[0].key).value.fieldType);
      EntriesFit(schema, entries[1..], fields);
    }
  }

  ghost predicate IsDefault(p: ParsedField, fields: seq<InputField>, entries: seq<Entry>) {
    && FindEntry(entries, p.key).None?
    && exists f :: f in fields && f.name == p.key && f.default.Some? && p.value == Single(f.default.value)
  }

  /** The first field of a list is left out, or its default comes first. */
  lemma {:induction false} MissingFirst(schema: Schema, fields: seq<InputField>, entries: seq<Entry>)
    requires fields != [] && ParseMissing(schema, fields, entries).Some?
    ensures ParseMissing(schema, fields[1..], entries).Some?
    ensures var all, rest := ParseMissing(schema, fields, entries).value, ParseMissing(schema, fields[1..], entries).value;
            if FindEntry(entries, fields[0].name).None? && fields[0].default.Some? then
              all == [ParsedField(fields[0].name, Single(fields[0].default.value))] + rest
            else all == rest
  {
    hide ParseInputValue;
  }

  /** What is added are defaults of fields that are not given. */
  lemma {:induction false} AddedAreDefaults(schema: Schema, fields: seq<InputField>, entries: seq<Entry>, p: ParsedField)
    requires ParseMissing(schema, fields, entries).Some? && p in ParseMissing(schema, fields, entries).value
    ensures IsDefault(p, fields, entries)
    decreases |fields|
  {
    if fields != [] {
      MissingFirst(schema, fields, entries);
      hide ParseMissing;
      assert fields == [fields[0]] + fields[1..];
      if p in ParseMissing(schema, fields[1..], entries).value {
        AddedAreDefaults(schema, fields[1..], entries, p);
        var f :| f in fields[1..] && f.name == p.key && f.default.Some? && p.value == Single(f.default.value);
        assert f in fields;
      } else {
        assert fields[0] in fields;
      }
    }
  }

  lemma {:induction false} AddedOnce(schema: Schema, fields: seq<InputField>, entries: seq<Entry>, i: nat, j: nat)
    requires DistinctFields(fields) && ParseMissing(schema, fields, entries).Some?
    requires i < j < |ParseMissing(schema, fields, entries).value|
    ensures ParseMissing(schema, fields, entries).value[i].key != ParseMissing(schema, fields, entries).value[j].key
    decreases |fields|
  {
    if fields != [] {
      MissingFirst(schema, fields, entries);
      hide ParseMissing;
      var all, rest := ParseMissing(schema, fields, entries).value, ParseMissing(schema, fields[1..], entries).value;
      if all == rest {
        AddedOnce(schema, fields[1..], entries, i, j);
      } else if i > 0 {
        AddedOnce(schema, fields[1..], entries, i - 1, j - 1);
      } else {
        assert all[j] == rest[j - 1] && rest[j - 1] in rest;
        AddedAreDefaults(schema, fields[1..], entries, rest[j - 1]);
      }
    }
  }

  /** Every default of a field that is not given is added. */
  lemma {:induction false} DefaultsAreAdded(schema: Schema, fields: seq<InputField>, entries: seq<Entry>, f: InputField)
    requires ParseMissing(schema, fields, entries).Some?
    requires f in fields && f.default.Some? && FindEntry(entries, f.name).None?
    ensures HasKey(ParseMissing(schema, fields, entries).value, f.name)
    decreases |fields|
  {
    MissingFirst(schema, fields, entries);
    hide ParseMissing;
    assert fields == [fields[0]] + fields[1..];
    var rest := ParseMissing(schema, fields[1..], entries).value;
    if FindEntry(entries, fields[0].name).None? && fields[0].default.Some? {
      HasMore(ParsedField(fields[0].name, Single(fields[0].default.value)), rest);
    }
    if f != fields[0] {
      DefaultsAreAdded(schema, fields[1..], entries, f);
    }
  }

  /** The defaults are those of the fields that are not given, and of no other. */
  lemma {:induction false} MissingAreDefaults(schema: Schema, fields: seq<InputField>, entries: seq<Entry>)
    requires DistinctFields(fields) && ParseMissing(schema, fields, entries).Some?
    ensures var defaults := ParseMissing(schema, fields, entries).value;
            && (forall i :: 0 <= i < |defaults| ==> IsDefault(defaults[i], fields, entries))
            && (forall i, j :: 0 <= i < j < |defaults| ==> defaults[i].key != defaults[j].key)
            && forall f :: f in fields && f.default.Some? && FindEntry(entries, f.name).None? ==> HasKey(defaults, f.name)
  {
    hide ParseMissing, IsDefault, HasKey, DistinctFields;
    var defaults := ParseMissing(schema, fields, entries).value;
    forall i | 0 <= i < |defaults|
      ensures IsDefault(defaults[i], fields, entries)
    {
      AddedAreDefaults(schema, fields, entries, defaults[i]);
    }
    forall i, j | 0 <= i < j < |defaults|
      ensures defaults[i].key != defaults[j].key
    {
      AddedOnce(schema, fields, entries, i, j);
    }
    forall f | f in fields && f.default.Some? && FindEntry(entries, f.name).None?
      ensures HasKey(defaults, f.name)
    {
      DefaultsAreAdded(schema, fields, entries, f);
    }
  }

  lemma {:induction false} HasMore(own: ParsedField, rest: seq<ParsedField>)
    ensures forall n :: HasKey([own] + rest, n) <==> own.key == n || HasKey(rest, n)
  {
    forall n
      ensures HasKey([own] + rest, n) <==> own.key == n || HasKey(rest, n)
    {
      assert ([own] + rest)[0] == own;
      if HasKey(rest, n) {
        var i :| 0 <= i < |rest| && rest[i].key == n;
        assert ([own] + rest)[i + 1].key == n;
      }
    }
  }

  lemma {:induction false} ObjectFits(schema: Schema, v: QueryValue, n: Name)
    requires WellTyped(schema) && WellKeyed(v) && v.Object? && ParseInputValue(schema, v, OfObject(n)).Some?
    ensures Fits(schema, ParseInputValue(schema, v, OfObject(n)).value, OfObject(n))
    decreases Size(v), OfObject(n), 0
  {
    var fields := FieldsOf(schema, n);
    var given, defaults := ParseEntries(schema, v.entries, fields).value, ParseMissing(schema, fields, v.entries).value;
    EntriesFit(schema, v.entries, fields);
    MissingAreDefaults(schema, fields, v.entries);
    EntriesParseIff(schema, v.entries, fields);
    MissingParsesIff(schema, fields, v.entries);
    hide ParseInputValue, ParseEntries, ParseMissing;
    ObjectShape(schema, n, v.entries, given, defaults);
  }

  lemma {:induction false} ObjectShape(schema: Schema, n: Name, entries: seq<Entry>, given: seq<ParsedField>, defaults: seq<ParsedField>)
    requires WellTyped(schema) && DistinctKeys(entries) && |given| == |entries|
    requires forall i :: 0 <= i < |given| ==>
               var field := FindField(FieldsOf(schema, n), given[i].key);
               given[i].key == entries[i].key && field.Some? && Fits(schema, given[i].value, field.value.fieldType)
    requires forall i :: 0 <= i < |defaults| ==> IsDefault(defaults[i], FieldsOf(schema, n), entries)
    requires forall i, j :: 0 <= i < j < |defaults| ==> defaults[i].key != defaults[j].key
    requires forall f :: f in FieldsOf(schema, n) && f.default.Some? && FindEntry(entries, f.name).None? ==> HasKey(defaults, f.name)
    requires forall f :: f in FieldsOf(schema, n) ==> FindEntry(entries, f.name).Some? || f.default.Some? || f.fieldType.Opt?
    ensures Fits(schema, ParsedMap(given + defaults), OfObject(n))
  {
    var fields, all := FieldsOf(schema, n), given + defaults;
    forall i | 0 <= i < |defaults|
      ensures var field := FindField(fields, defaults[i].key); field.Some? && Fits(schema, defaults[i].value, field.value.fieldType)
    {
      DefaultFits(schema, n, entries, defaults[i]);
    }
    forall i, j | 0 <= i < |given| && 0 <= j < |defaults|
      ensures given[i].key != defaults[j].key
    {
      assert IsDefault(defaults[j], fields, entries) && entries[i] in entries;
    }
    forall f | f in fields && (f.default.Some? || !f.fieldType.Opt?)
      ensures HasKey(all, f.name)
    {
      assert FindEntry(entries, f.name).None? ==> HasKey(defaults, f.name);
      KeyIsThere(entries, given, defaults, f.name);
    }
    hide WellTyped, HasKey, IsDefault, FindEntry;
  }

  lemma {:induction false} DefaultFits(schema: Schema, n: Name, entries: seq<Entry>, p: ParsedField)
    requires WellTyped(schema) && IsDefault(p, FieldsOf(schema, n), entries)
    ensures var field := FindField(FieldsOf(schema, n), p.key); field.Some? && Fits(schema, p.value, field.value.fieldType)
  {
    var fields := FieldsOf(schema, n);
    var f :| f in fields && f.name == p.key && f.default.Some? && p.value == Single(f.default.value);
    FieldIsFound(fields, f);
    hide Fits;
  }

  lemma {:induction false} KeyIsThere(entries: seq<Entry>, given: seq<ParsedField>, defaults: seq<ParsedField>, n: Name)
    requires |given| == |entries| && forall i :: 0 <= i < |given| ==> given[i].key == entries[i].key
    requires FindEntry(entries, n).Some? || HasKey(defaults, n)
    ensures HasKey(given + defaults, n)
  {
    var all := given + defaults;
    if FindEntry(entries, n).Some? {
      var i :| 0 <= i < |entries| && entries[i] == FindEntry(entries, n).value;
      assert all[i].key == n;
    } else {
      var i :| 0 <= i < |defaults| && defaults[i].key == n;
      assert all[|given| + i].key == n;
    }
  }

  // ----- the contents of what is parsed -----

  predicate ScalarCarries(v: QueryValue, p: PrismaValue) {
    match (v, p)
    case (Int(i), PInt(j)) => i == j
    case (Int(i), PFloat(f)) => f == i as real
    case (Int(i), PId(id)) => 0 <= id < 0x1_0000_0000_0000_0000 && (id - i) % 0x1_0000_0000_0000_0000 == 0
    case (Float(f), PFloat(g)) => f == g
    case (Float(f), PInt(i)) =>
      // cut towards zero, or at a bound
      || (f >= 0.0 && i as real <= f && f < i as real + 1.0) || (f <= 0.0 && i as real >= f && f > i as real - 1.0)
      || (i == MAX_I64 && f > i as real) || (i == MIN_I64 && f < i as real)
    case (String(s), PString(t)) => s == t
    case (String(s), PDateTime(t)) => s == t
    case (String(s), PJson(t)) => s == t
    case (String(s), PUuid(t)) => s == t
    case (Boolean(b), PBoolean(c)) => b == c
    case (EnumValue(e), PEnum(g)) => e == g
    case _ => false
  }

  /** What is parsed says what the value says, whatever the type: items in order, entries under their keys. */
  predicate Carries(v: QueryValue, r: Parsed)
    decreases r
  {
    match r
    case Single(p) => if v.Null? then p.PNull? else ScalarCarries(v, p)
    case ParsedList(items) =>
      if v.List? then |items| == |v.values| && forall i :: 0 <= i < |items| ==> Carries(v.values[i], items[i])
      else |items| == 1 && Carries(v, items[0])
    case ParsedMap(fields) =>
      && v.Object? && |fields| >= |v.entries|
      && forall i :: 0 <= i < |v.entries| ==> fields[i].key == v.entries[i].key && Carries(v.entries[i].value, fields[i].value)
  }

  /** What is parsed carries the value, but for floats cut to integers and ids wrapped to 64 bits. */
  lemma {:induction false} ParsedCarries(schema: Schema, v: QueryValue, t: InputType)
    requires ParseInputValue(schema, v, t).Some?
    ensures Carries(v, ParseInputValue(schema, v, t).value)
    decreases Size(v), t, 0
  {
    if !v.Null? {
      match t
      case Opt(inner) => ParsedCarries(schema, v, inner);
      case OfScalar(scalar) => ScalarIsCarried(schema, v, scalar);
      case OfEnum(values) =>
      case ListOf(inner) =>
        if v.List? {
          ListIsCarried(schema, v.values, inner);
        } else {
          ParsedCarries(schema, v, inner);
        }
      case OfObject(n) => EntriesAreCarried(schema, v.entries, FieldsOf(schema, n));
    }
  }

  lemma {:induction false} ScalarIsCarried(schema: Schema, v: QueryValue, t: ScalarType)
    requires !v.Null? && ParseScalar(schema, v, t).Some?
    ensures ScalarCarries(v, ParseScalar(schema, v, t).value)
  {
  }

  lemma {:induction false} ListIsCarried(schema: Schema, values: seq<QueryValue>, t: InputType)
    requires ParseList(schema, values, t).Some?
    ensures var items := ParseList(schema, values, t).value;
            |items| == |values| && forall i :: 0 <= i < |items| ==> Carries(values[i], items[i])
    decreases SizeOfAll(values), t, 1
  {
    hide Carries, ParseInputValue;
    if values != [] {
      ParsedCarries(schema, values[0], t);
      ListIsCarried(schema, values[1..], t);
    }
  }

  lemma {:induction false} EntriesAreCarried(schema: Schema, entries: seq<Entry>, fields: seq<InputField>)
    requires ParseEntries(schema, entries, fields).Some?
    ensures var given := ParseEntries(schema, entries, fields).value;
            && |given| == |entries|
            && forall i :: 0 <= i < |given| ==> given[i].key == entries[i].key && Carries(entries[i].value, given[i].value)
    decreases SizeOfEntries(entries), OfEnum([]), 1
  {
    hide Carries, ParseInputValue;
    if entries != [] {
      ParsedCarries(schema, entries[0].value, FindField(fields, entries[0].key).value.fieldType);
      EntriesAreCarried(schema, entries[1..], fields);
    }
  }
}
