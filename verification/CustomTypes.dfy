/** Custom types: names for other types, which the type of a field is resolved through. */
module CustomTypes {
  import opened Wrappers
  import opened Names

  type Directive = string

  /** A custom type names another type, and adds directives to the fields that use it. */
  datatype CustomType = CustomType(name: Name, target: Name, directives: seq<Directive>)

  datatype Schema = Schema(models: seq<Name>, enums: seq<Name>, types: seq<CustomType>)

  const SCALARS := ["Int", "Float", "Decimal", "Boolean", "String", "DateTime"]

  datatype FieldType = Base(scalar: Name) | Relation(to: Name) | Enum(name: Name)

  datatype Result =
    | Lifted(fieldType: FieldType, directives: seq<Directive>)
    | Recursive(name: Name)
    | NotFound(name: Name)
    | NotScalar(name: Name)

  function FindCustom(types: seq<CustomType>, n: Name): (r: Option<CustomType>)
    ensures r.Some? ==> r.value in types && r.value.name == n
  {
    if types == [] then None else if types[0].name == n then Some(types[0]) else FindCustom(types[1..], n)
  }

  /** The type that a name stands for by itself. */
  function OwnType(s: Schema, n: Name): Option<FieldType> {
    if n in SCALARS then Some(Base(n))
    else if n in s.models then Some(Relation(n))
    else if n in s.enums then Some(Enum(n))
    else None
  }

  // ----- the resolution -----

  function CustomNames(s: Schema): set<Name> {
    set t | t in s.types :: t.name
  }

  function NamesIn(checked: seq<Name>): set<Name> {
    set n | n in checked
  }

  function Lift(s: Schema, n: Name, checked: seq<Name>): Result
    decreases |CustomNames(s) - NamesIn(checked)|
  {
    if OwnType(s, n).Some? then Lifted(OwnType(s, n).value, [])
    else if n in checked then Recursive(n)
    else if FindCustom(s.types, n).None? then NotFound(n)
    else
      var custom := FindCustom(s.types, n).value;
      OneLess(s, n, checked);
      match Lift(s, custom.target, checked + [n])
      case Lifted(Relation(_), _) => NotScalar(custom.target)
      case Lifted(fieldType, directives) => Lifted(fieldType, directives + custom.directives)
      case error => error
  }

  lemma {:induction false} OneLess(s: Schema, n: Name, checked: seq<Name>)
    requires n !in checked && FindCustom(s.types, n).Some?
    ensures |CustomNames(s) - NamesIn(checked + [n])| < |CustomNames(s) - NamesIn(checked)|
  {
    var more, less := CustomNames(s) - NamesIn(checked), CustomNames(s) - NamesIn(checked + [n]);
    assert FindCustom(s.types, n).value in s.types;
    assert n in more;
    assert less == more - {n};
  }

  // ----- chains of custom types -----

  predicate IsAlias(s: Schema, n: Name) {
    OwnType(s, n).None? && FindCustom(s.types, n).Some?
  }

  function Target(s: Schema, n: Name): Name
    requires IsAlias(s, n)
  {
    FindCustom(s.types, n).value.target
  }

  /** The names of custom types that lead from a name to another one. */
  predicate Chain(s: Schema, p: seq<Name>, n: Name, end: Name) {
    if p == [] then n == end
    else p[0] == n && IsAlias(s, n) && Chain(s, p[1..], Target(s, n), end)
  }

  /** The directives along a chain, those of its end first. */
  function Collected(s: Schema, p: seq<Name>): seq<Directive> {
    if p == [] then []
    else Collected(s, p[1..]) + (if FindCustom(s.types, p[0]).Some? then FindCustom(s.types, p[0]).value.directives else [])
  }

  /** What a name resolves to if a chain of custom types ends. */
  function Ended(s: Schema, p: seq<Name>, end: Name): Result {
    if OwnType(s, end).None? then NotFound(end)
    else if OwnType(s, end).value.Relation? && p != [] then NotScalar(end)
    else Lifted(OwnType(s, end).value, Collected(s, p))
  }

  /** A chain to a name that is no alias is resolved by its end. */
  lemma {:induction false} EndedChain(s: Schema, p: seq<Name>, n: Name, end: Name, checked: seq<Name>)
    requires Chain(s, p, n, end) && !IsAlias(s, end)
    requires forall x :: x in checked ==> IsAlias(s, x) && x !in p
    requires forall i, j :: 0 <= i < j < |p| ==> p[i] != p[j]
    ensures Lift(s, n, checked) == Ended(s, p, end)
    decreases |p|
  {
    if p != [] {
      assert n == p[0] && n !in checked;
      forall x | x in checked + [n]
        ensures IsAlias(s, x) && x !in p[1..]
      {
      }
      EndedChain(s, p[1..], Target(s, n), end, checked + [n]);
      if p[1..] == [] {
        assert Collected(s, p[1..]) == [];
      }
    }
  }

  /** A chain that comes back to a name it has passed is refused. */
  lemma {:induction false} RepeatedChain(s: Schema, p: seq<Name>, n: Name, end: Name, checked: seq<Name>)
    requires Chain(s, p, n, end) && IsAlias(s, end) && (end in checked || end in p)
    requires forall x :: x in p ==> x !in checked
    requires forall i, j :: 0 <= i < j < |p| ==> p[i] != p[j]
    ensures Lift(s, n, checked) == Recursive(end)
    decreases |p|
  {
    if p != [] {
      assert p == [n] + p[1..];
      forall x | x in p[1..]
        ensures x !in checked + [n]
      {
      }
      RepeatedChain(s, p[1..], Target(s, n), end, checked + [n]);
    }
  }

  /** Two chains from a name to names that are no aliases are the same. */
  lemma {:induction false} ChainIsUnique(s: Schema, p: seq<Name>, q: seq<Name>, n: Name, a: Name, b: Name)
    requires Chain(s, p, n, a) && Chain(s, q, n, b) && !IsAlias(s, a) && !IsAlias(s, b)
    ensures p == q && a == b
  {
    if p != [] {
      ChainIsUnique(s, p[1..], q[1..], Target(s, n), a, b);
      assert p == [n] + p[1..] && q == [n] + q[1..];
    }
  }

  lemma {:induction false} ChainSuffix(s: Schema, p: seq<Name>, n: Name, end: Name, i: nat)
    requires Chain(s, p, n, end) && i < |p|
    ensures Chain(s, p[i..], p[i], end)
  {
    if i > 0 {
      ChainSuffix(s, p[1..], Target(s, n), end, i - 1);
      assert p[1..][i - 1..] == p[i..];
    }
  }

  /** A chain that ends passes no name twice. */
  lemma {:induction false} EndedChainIsDistinct(s: Schema, p: seq<Name>, n: Name, end: Name)
    requires Chain(s, p, n, end) && !IsAlias(s, end)
    ensures forall i, j :: 0 <= i < j < |p| ==> p[i] != p[j]
  {
    forall i, j | 0 <= i < j < |p|
      ensures p[i] != p[j]
    {
      ChainSuffix(s, p, n, end, i);
      ChainSuffix(s, p, n, end, j);
      if p[i] == p[j] {
        ChainIsUnique(s, p[i..], p[j..], p[i], end, end);
      }
    }
  }

  /** A name from which custom types lead back to one of them. */
  ghost predicate Cyclic(s: Schema, n: Name) {
    exists p, end :: CyclicChain(s, p, n, end)
  }

  ghost predicate CyclicChain(s: Schema, p: seq<Name>, n: Name, end: Name) {
    Chain(s, p, n, end) && end in p && forall i, j :: 0 <= i < j < |p| ==> p[i] != p[j]
  }

  ghost predicate EndedChainFrom(s: Schema, p: seq<Name>, n: Name, end: Name) {
    Chain(s, p, n, end) && !IsAlias(s, end)
  }

  lemma {:induction false} InChain(s: Schema, p: seq<Name>, n: Name, end: Name, x: Name)
    requires Chain(s, p, n, end) && x in p
    ensures IsAlias(s, x)
  {
    assert p == [n] + p[1..];
    if x != n {
      InChain(s, p[1..], Target(s, n), end, x);
    }
  }

  lemma {:induction false} ChainGrows(s: Schema, p: seq<Name>, n: Name, end: Name)
    requires Chain(s, p, n, end) && IsAlias(s, end)
    ensures Chain(s, p + [end], n, Target(s, end))
  {
    if p == [] {
      assert ([end])[1..] == [];
    } else {
      ChainGrows(s, p[1..], Target(s, n), end);
      assert (p + [end])[0] == p[0] && (p + [end])[1..] == p[1..] + [end];
    }
  }

  /** Every chain goes on until it ends or comes back. */
  lemma {:induction false} EndsOrComesBack(s: Schema, p: seq<Name>, n: Name, at: Name)
    requires Chain(s, p, n, at) && forall i, j :: 0 <= i < j < |p| ==> p[i] != p[j]
    ensures Cyclic(s, n) || exists q, end :: EndedChainFrom(s, q, n, end)
    decreases |CustomNames(s) - NamesIn(p)|
  {
    if !IsAlias(s, at) {
      assert EndedChainFrom(s, p, n, at);
    } else if at in p {
      assert CyclicChain(s, p, n, at);
    } else {
      ChainGrows(s, p, n, at);
      OneLess(s, at, p);
      EndsOrComesBack(s, p + [at], n, Target(s, at));
    }
  }

  /** Resolving a name fails for recursion if and only if its custom types come back to one of them. */
  lemma {:induction false} RecursiveIffCyclic(s: Schema, n: Name)
    ensures Lift(s, n, []).Recursive? <==> Cyclic(s, n)
  {
    hide Lift;
    EndsOrComesBack(s, [], n, n);
    if Cyclic(s, n) {
      var p, end :| CyclicChain(s, p, n, end);
      InChain(s, p, n, end, end);
      RepeatedChain(s, p, n, end, []);
    } else {
      var q, end :| EndedChainFrom(s, q, n, end);
      ResolvedByEnd(s, q, n, end);
    }
  }

  /**
    Otherwise its chain of custom types ends, and the end decides: it is not found, or it is a
    model behind a custom type, or the name has its type, with the directives of the chain from
    the end outwards.
   */
  lemma {:induction false} ResolvedByEnd(s: Schema, p: seq<Name>, n: Name, end: Name)
    requires EndedChainFrom(s, p, n, end)
    ensures Lift(s, n, []) == Ended(s, p, end) && !Cyclic(s, n)
  {
    EndedChainIsDistinct(s, p, n, end);
    EndedChain(s, p, n, end, []);
    if Cyclic(s, n) {
      var q, e :| CyclicChain(s, q, n, e);
      InChain(s, q, n, e, e);
      RepeatedChain(s, q, n, e, []);
      assert false;
    }
  }

  predicate IsScalarName(n: Name) {
    n == "Int" || n == "Float" || n == "Decimal" || n == "Boolean" || n == "String" || n == "DateTime"
  }

  /**
    Scalars win over models and models over enums of the same name, whatever custom
    types there are; a model is the type of nothing but its own name.
   */
  lemma {:induction false} LiftedTypes(s: Schema, n: Name, checked: seq<Name>)
    ensures IsScalarName(n) ==> Lift(s, n, checked) == Lifted(Base(n), [])
    ensures !IsScalarName(n) && n in s.models ==> Lift(s, n, checked) == Lifted(Relation(n), [])
    ensures !IsScalarName(n) && n !in s.models && n in s.enums ==> Lift(s, n, checked) == Lifted(Enum(n), [])
    ensures match Lift(s, n, checked)
            case Lifted(Base(x), _) => IsScalarName(x)
            case Lifted(Relation(x), _) => x == n && n in s.models && !IsScalarName(n)
            case Lifted(Enum(x), _) => x in s.enums && x !in s.models && !IsScalarName(x)
            case _ => true
    decreases |CustomNames(s) - NamesIn(checked)|
  {
    assert n in SCALARS <==> IsScalarName(n);
    if OwnType(s, n).None? && n !in checked && FindCustom(s.types, n).Some? {
      OneLess(s, n, checked);
      LiftedTypes(s, FindCustom(s.types, n).value.target, checked + [n]);
      hide IsScalarName;
    }
  }

  /** A chain ends whenever the custom types of a name do not come back. */
  lemma {:induction false} AcyclicEnds(s: Schema, n: Name)
    requires !Cyclic(s, n)
    ensures exists p, end :: EndedChainFrom(s, p, n, end)
  {
    EndsOrComesBack(s, [], n, n);
  }

  // ----- with the list of checked types -----

  class TypeLifter {
    const schema: Schema
    var checkedTypes: seq<Name>

    constructor (schema: Schema)
      ensures this.schema == schema && checkedTypes == []
    {
      this.schema, checkedTypes := schema, [];
    }

    method LiftFieldType(typeName: Name) returns (r: Result)
      modifies this
      ensures r == Lift(schema, typeName, old(checkedTypes))
      decreases |CustomNames(schema) - NamesIn(checkedTypes)|, 1
    {
      if typeName in SCALARS {
        r := Lifted(Base(typeName), []);
      } else if typeName in schema.models {
        r := Lifted(Relation(typeName), []);
      } else if typeName in schema.enums {
        r := Lifted(Enum(typeName), []);
      } else {
        r := ResolveCustomType(typeName);
      }
    }

    method ResolveCustomType(typeName: Name) returns (r: Result)
      requires OwnType(schema, typeName).None?
      modifies this
      ensures r == Lift(schema, typeName, old(checkedTypes))
      decreases |CustomNames(schema) - NamesIn(checkedTypes)|, 0
    {
      if typeName in checkedTypes {
        return Recursive(typeName);
      }
      var found := FindCustom(schema.types, typeName);
      if found.None? {
        return NotFound(typeName);
      }
      var custom := found.value;
      OneLess(schema, typeName, checkedTypes);
      checkedTypes := checkedTypes + [custom.name];
      r := LiftFieldType(custom.target);
      if r.Lifted? {
        if r.fieldType.Relation? {
          return NotScalar(custom.target);
        }
        r := Lifted(r.fieldType, r.directives + custom.directives);
      }
    }
  }
}
