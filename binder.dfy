/**
 * `CustomSerializationBinder`: a registry of the types that carry a
 * `JsonObject` attribute with an `Id`, built once from every type of every
 * loaded assembly, and the two lookups the serializer makes through it.
 * Types and the default binder are opaque to the registry: a type is a
 * `TypeId`, and the default binder's two lookups are function parameters.
 */
module Binder {
  import opened Common

  /** A type's identity, as `System.Type` equality sees it. */
  type TypeId = nat

  /** A type of an assembly and the `Id` of its `JsonObject` attribute, if it has one. */
  datatype TypeDecl = TypeDecl(typ: TypeId, id: Option<string>)

  datatype Registry = Registry(nameToType: map<string, TypeId>, typeToName: map<TypeId, string>)

  /** One step of the constructor's inner loop body on the registry so far. */
  function Register(reg: Registry, d: TypeDecl): Registry {
    if d.typ in reg.typeToName then reg
    else if IsNullOrEmpty(d.id) || d.id.value in reg.nameToType then reg
    else Registry(reg.nameToType[d.id.value := d.typ], reg.typeToName[d.typ := d.id.value])
  }

  /** The registry after the constructor has visited `decls` in order. */
  function RegistryOf(decls: seq<TypeDecl>): Registry {
    if decls == [] then Registry(map[], map[])
    else Register(RegistryOf(decls[..|decls| - 1]), decls[|decls| - 1])
  }

  /** The types of the assemblies in the order `GetAssemblies` and `GetTypes` list them. */
  function AllTypes(assemblies: seq<seq<TypeDecl>>): seq<TypeDecl> {
    if assemblies == [] then []
    else AllTypes(assemblies[..|assemblies| - 1]) + assemblies[|assemblies| - 1]
  }

  /** The two dictionaries are exact inverses, and the empty name is in neither. */
  ghost predicate Consistent(reg: Registry) {
    && (forall n :: n in reg.nameToType ==> reg.nameToType[n] in reg.typeToName && reg.typeToName[reg.nameToType[n]] == n)
    && (forall t :: t in reg.typeToName ==> reg.typeToName[t] in reg.nameToType && reg.nameToType[reg.typeToName[t]] == t)
    && "" !in reg.nameToType
  }

  /** Every name registered is the `Id` some visited type declares, mapped to that type. */
  ghost predicate Declared(reg: Registry, decls: seq<TypeDecl>) {
    forall n :: n in reg.nameToType ==> exists i :: 0 <= i < |decls| && decls[i] == TypeDecl(reg.nameToType[n], Some(n))
  }

  class CustomSerializationBinder {
    var nameToType: map<string, TypeId>
    var typeToName: map<TypeId, string>

    ghost predicate Valid()
      reads this
    {
      Consistent(Registry(nameToType, typeToName))
    }

    /**
     * The constructor: every type of every assembly, skipping a type that is
     * already registered, and skipping an `Id` that is null, empty or taken.
     */
    constructor(assemblies: seq<seq<TypeDecl>>)
      ensures Registry(nameToType, typeToName) == RegistryOf(AllTypes(assemblies))
      ensures Valid()
    {
      nameToType, typeToName := map[], map[];
      new;
      var a := 0;
      while a < |assemblies|
        invariant 0 <= a <= |assemblies|
        invariant Registry(nameToType, typeToName) == RegistryOf(AllTypes(assemblies[..a]))
      {
        RegisterAll(AllTypes(assemblies[..a]), assemblies[a]);
        AllTypesSnoc(assemblies, a);
        a := a + 1;
      }
      assert assemblies[..a] == assemblies;
      RegistryConsistent(AllTypes(assemblies));
    }

    /** The inner loop of the constructor: the types of one assembly, in order, after the types `seen`. */
    method RegisterAll(ghost seen: seq<TypeDecl>, types: seq<TypeDecl>)
      requires Registry(nameToType, typeToName) == RegistryOf(seen)
      modifies this
      ensures Registry(nameToType, typeToName) == RegistryOf(seen + types)
    {
      var i := 0;
      PrefixZero(seen, types);
      while i < |types|
        invariant 0 <= i <= |types|
        invariant Registry(nameToType, typeToName) == RegistryOf(seen + types[..i])
      {
        RegistryOfSnoc(seen, types, i);
        var d := types[i];
        if d.typ in typeToName {
          i := i + 1;
          continue;
        }
        if !IsNullOrEmpty(d.id) {
          if d.id.value !in nameToType {
            typeToName := typeToName[d.typ := d.id.value];
            nameToType := nameToType[d.id.value := d.typ];
          }
        }
        i := i + 1;
      }
      assert types[..i] == types;
    }

    /** `BindToName`: a registered type is written as its `Id` with no assembly name. */
    function BindToName(t: TypeId, baseBindToName: TypeId -> (Option<string>, string)): (r: (Option<string>, string))
      reads this
      ensures t in typeToName ==> r == (None, typeToName[t])
      ensures t !in typeToName ==> r == baseBindToName(t)
    {
      if t in typeToName then (None, typeToName[t]) else baseBindToName(t)
    }

    /** `BindToType`: the registry is consulted only when no assembly name is given. */
    function BindToType(assemblyName: Option<string>, typeName: string, baseBindToType: (Option<string>, string) -> TypeId)
      : (r: TypeId)
      reads this
      ensures IsNullOrEmpty(assemblyName) && typeName in nameToType ==> r == nameToType[typeName]
      ensures !(IsNullOrEmpty(assemblyName) && typeName in nameToType) ==> r == baseBindToType(assemblyName, typeName)
    {
      if IsNullOrEmpty(assemblyName) && typeName in nameToType then nameToType[typeName]
      else baseBindToType(assemblyName, typeName)
    }
  }

  /** The types of one more assembly come after those of the assemblies before it. */
  lemma AllTypesSnoc(assemblies: seq<seq<TypeDecl>>, a: int)
    requires 0 <= a < |assemblies|
    ensures AllTypes(assemblies[..a + 1]) == AllTypes(assemblies[..a]) + assemblies[a]
  {
    assert assemblies[..a + 1][..a] == assemblies[..a];
  }

  /** Visiting one more type of an assembly is one more `Register` step. */
  lemma RegistryOfSnoc(seen: seq<TypeDecl>, types: seq<TypeDecl>, i: int)
    requires 0 <= i < |types|
    ensures RegistryOf(seen + types[..i + 1]) == Register(RegistryOf(seen + types[..i]), types[i])
  {
    assert (seen + types[..i + 1])[..|seen| + i] == seen + types[..i];
  }

  /** No types of the assembly visited yet. */
  lemma PrefixZero(seen: seq<TypeDecl>, types: seq<TypeDecl>)
    ensures seen + types[..0] == seen
  {
  }

  /** A registered type is read back as itself, whatever the default binder does. */
  lemma TypeRoundTrip(b: CustomSerializationBinder, t: TypeId,
                      baseBindToName: TypeId -> (Option<string>, string), baseBindToType: (Option<string>, string) -> TypeId)
    requires b.Valid() && t in b.typeToName
    ensures var (assemblyName, typeName) := b.BindToName(t, baseBindToName);
            b.BindToType(assemblyName, typeName, baseBindToType) == t
  {
  }

  /** A registered name, with no assembly name, is written back as itself. */
  lemma NameRoundTrip(b: CustomSerializationBinder, n: string,
                      baseBindToName: TypeId -> (Option<string>, string), baseBindToType: (Option<string>, string) -> TypeId)
    requires b.Valid() && n in b.nameToType
    ensures b.BindToName(b.BindToType(None, n, baseBindToType), baseBindToName) == (None, n)
  {
  }

  /** Registering one more type keeps the dictionaries inverse and free of the empty name. */
  lemma RegisterConsistent(reg: Registry, d: TypeDecl)
    requires Consistent(reg)
    ensures Consistent(Register(reg, d))
  {
  }

  /** The constructor leaves the dictionaries exact inverses; a null or empty `Id` is never registered. */
  lemma {:induction false} RegistryConsistent(decls: seq<TypeDecl>)
    ensures Consistent(RegistryOf(decls))
  {
    if decls != [] {
      RegistryConsistent(decls[..|decls| - 1]);
      RegisterConsistent(RegistryOf(decls[..|decls| - 1]), decls[|decls| - 1]);
    }
  }

  /** Nothing is registered that no visited type declares. */
  lemma {:induction false} RegistryDeclared(decls: seq<TypeDecl>)
    ensures Declared(RegistryOf(decls), decls)
  {
    if decls != [] {
      var init := decls[..|decls| - 1];
      RegistryDeclared(init);
      var reg := RegistryOf(init);
      forall n | n in RegistryOf(decls).nameToType
        ensures exists i :: 0 <= i < |decls| && decls[i] == TypeDecl(RegistryOf(decls).nameToType[n], Some(n))
      {
        if n in reg.nameToType && RegistryOf(decls).nameToType[n] == reg.nameToType[n] {
          var i :| 0 <= i < |init| && init[i] == TypeDecl(reg.nameToType[n], Some(n));
          assert decls[i] == init[i];
        } else {
          assert decls[|decls| - 1] == TypeDecl(RegistryOf(decls).nameToType[n], Some(n));
        }
      }
    }
  }

  /**
   * First wins: what the registry holds after some types is still there,
   * unchanged, after any further types; a later type claiming a taken `Id`
   * is skipped.
   */
  lemma {:induction false} RegistryKeeps(a: seq<TypeDecl>, b: seq<TypeDecl>)
    ensures forall n :: n in RegistryOf(a).nameToType ==>
              n in RegistryOf(a + b).nameToType && RegistryOf(a + b).nameToType[n] == RegistryOf(a).nameToType[n]
    ensures forall t :: t in RegistryOf(a).typeToName ==>
              t in RegistryOf(a + b).typeToName && RegistryOf(a + b).typeToName[t] == RegistryOf(a).typeToName[t]
  {
    if b == [] {
      assert a + b == a;
    } else {
      var b' := b[..|b| - 1];
      RegistryKeeps(a, b');
      assert (a + b)[..|a + b| - 1] == a + b';
      assert RegistryOf(a + b) == Register(RegistryOf(a + b'), b[|b| - 1]);
    }
  }

  /**
   * The first type to declare a non-empty `Id`, when no earlier type is the
   * same type or declares the same `Id`, keeps that `Id` in both directions.
   */
  lemma FirstClaimWins(decls: seq<TypeDecl>, i: nat, n: string)
    requires i < |decls| && decls[i].id == Some(n) && n != ""
    requires forall j :: 0 <= j < i ==> decls[j].typ != decls[i].typ && decls[j].id != Some(n)
    ensures n in RegistryOf(decls).nameToType && RegistryOf(decls).nameToType[n] == decls[i].typ
    ensures decls[i].typ in RegistryOf(decls).typeToName && RegistryOf(decls).typeToName[decls[i].typ] == n
  {
    var before := decls[..i];
    RegistryDeclared(before);
    RegistryConsistent(before);
    assert decls[..i + 1][..i] == before;
    RegistryKeeps(decls[..i + 1], decls[i + 1..]);
    assert decls[..i + 1] + decls[i + 1..] == decls;
  }

  /** A type that declares no `Id`, or an empty one, and no other visited type with it, is never registered. */
  lemma UndeclaredNeverRegistered(decls: seq<TypeDecl>, t: TypeId)
    requires forall i :: 0 <= i < |decls| && decls[i].typ == t ==> IsNullOrEmpty(decls[i].id)
    ensures t !in RegistryOf(decls).typeToName
  {
    RegistryDeclared(decls);
    RegistryConsistent(decls);
  }
}
