/** The compiler's symbol table as values: qualified identifiers, symbol
    aliases, namespace records kept in a flat registry addressed by index,
    the read-only queries over that registry, and the resolution algorithm
    with its properties. The handler class in module Handler owns a registry
    of this shape and changes it. */
module Namespaces {
  import opened Common

  type Identifier = string

  /** A qualified identifier: the enclosing namespaces' names followed by the
      symbol's own name. The root namespace's id is the empty path. */
  datatype NamespacedId = NamespacedId(path: seq<Identifier>)

  const RootId: NamespacedId := NamespacedId([])

  /** The id of the enclosing namespace (the root's parent is the root id). */
  function Parent(id: NamespacedId): (r: NamespacedId)
    ensures |id.path| > 0 ==> |r.path| + 1 == |id.path| && r.path == id.path[..|r.path|]
  {
    if |id.path| == 0 then id else NamespacedId(id.path[..|id.path| - 1])
  }

  /** The last segment of the id (empty for the root id). */
  function Name(id: NamespacedId): Identifier
  {
    if |id.path| == 0 then "" else id.path[|id.path| - 1]
  }

  /** An identifier is valid when its own name is not empty. */
  predicate IsValidId(id: NamespacedId)
  {
    Name(id) != ""
  }

  /** An id is explicit when it names at least one enclosing namespace. */
  predicate IsExplicit(id: NamespacedId)
  {
    |id.path| >= 2
  }

  /** The id of the member called name inside namespace id. */
  function ChildId(id: NamespacedId, name: Identifier): (r: NamespacedId)
    ensures Parent(r) == id && Name(r) == name && |r.path| == |id.path| + 1
  {
    NamespacedId(id.path + [name])
  }

  /** outer is a strict enclosing scope of inner. */
  predicate IsParentOf(outer: NamespacedId, inner: NamespacedId)
  {
    |outer.path| < |inner.path| && inner.path[..|outer.path|] == outer.path
  }

  /** The id re-rooted under newParent (relocate from the root id). */
  function Relocate(id: NamespacedId, newParent: NamespacedId): (r: NamespacedId)
    ensures |r.path| == |newParent.path| + |id.path|
    ensures r.path[..|newParent.path|] == newParent.path
    ensures r.path[|newParent.path|..] == id.path
  {
    NamespacedId(newParent.path + id.path)
  }

  /** The segments joined with "::". */
  function IdToString(id: NamespacedId): string
    decreases |id.path|
  {
    if |id.path| == 0 then ""
    else if |id.path| == 1 then id.path[0]
    else IdToString(Parent(id)) + "::" + Name(id)
  }

  /** The closed set of symbol kinds. */
  datatype SymbolType =
    | Unknown | Struct | Function | Variable | UsingAlias | Constant
    | StaticFunctionClass | TemplateType | TemplateConstant | TemplatedClass
    | TemplatedFunction | PreprocessorConstant | Enum | EnumValue

  /** The primitive type ids. */
  datatype TypeId = Void | Integer | Float | Double | Pointer | Block | Dynamic

  /** What a type descriptor is: not yet known, a primitive, a struct or a
      still-open template type argument. */
  datatype TypeKind =
    | DynamicType
    | Primitive(primitive: TypeId)
    | Complex(structId: NamespacedId)
    | TemplateTypeArg(argumentId: NamespacedId)

  datatype TypeInfo = TypeInfo(kind: TypeKind, isConst: bool)

  const DefaultTypeInfo: TypeInfo := TypeInfo(DynamicType, false)

  /** The primitive type id a descriptor stands for (structs are pointers). */
  function TypeIdOf(t: TypeInfo): TypeId
  {
    match t.kind
    case Primitive(p) => p
    case Complex(_) => Pointer
    case _ => Dynamic
  }

  /** A constant value: its type id and an abstract payload. */
  datatype VariableStorage = VariableStorage(typeId: TypeId, data: int)

  const EmptyValue: VariableStorage := VariableStorage(Void, 0)

  /** One symbol entry of a namespace. */
  datatype Alias = Alias(
    id: NamespacedId,
    typeInfo: TypeInfo,
    symbolType: SymbolType,
    constantValue: VariableStorage,
    internalSymbol: bool)

  /** One namespace record; parent, children and used namespaces are indices
      into the registry. */
  datatype Namespace = Namespace(
    id: NamespacedId,
    parent: Option<nat>,
    children: seq<nat>,
    aliases: seq<Alias>,
    used: seq<nat>,
    internalSymbol: bool)

  /** The kinds that carry a constant value. */
  predicate IsConstantSymbol(t: SymbolType)
  {
    t == TemplateConstant || t == PreprocessorConstant || t == Constant || t == EnumValue
  }

  predicate AnySymbol(t: SymbolType)
  {
    true
  }

  // ---------------------------------------------------------------------
  // One namespace

  /** Namespace::contains: the symbol sits directly in ns and has an alias. */
  predicate Contains(ns: Namespace, symbol: NamespacedId)
  {
    Parent(symbol) == ns.id && exists a :: a in ns.aliases && a.id == symbol
  }

  /** The index of the first alias with this id whose kind is accepted. */
  function FindAlias(aliases: seq<Alias>, id: NamespacedId, accept: SymbolType -> bool): (r: Option<nat>)
    ensures r.Some? ==> r.value < |aliases| && aliases[r.value].id == id && accept(aliases[r.value].symbolType)
    ensures r.Some? ==> forall k :: 0 <= k < r.value ==> !(aliases[k].id == id && accept(aliases[k].symbolType))
    ensures r.None? ==> forall k :: 0 <= k < |aliases| ==> !(aliases[k].id == id && accept(aliases[k].symbolType))
  {
    FindAliasFrom(aliases, id, accept, 0)
  }

  function FindAliasFrom(aliases: seq<Alias>, id: NamespacedId, accept: SymbolType -> bool, i: nat): (r: Option<nat>)
    requires i <= |aliases|
    requires forall k :: 0 <= k < i ==> !(aliases[k].id == id && accept(aliases[k].symbolType))
    ensures r.Some? ==> i <= r.value < |aliases| && aliases[r.value].id == id && accept(aliases[r.value].symbolType)
    ensures r.Some? ==> forall k :: 0 <= k < r.value ==> !(aliases[k].id == id && accept(aliases[k].symbolType))
    ensures r.None? ==> forall k :: 0 <= k < |aliases| ==> !(aliases[k].id == id && accept(aliases[k].symbolType))
    decreases |aliases| - i
  {
    if i == |aliases| then None
    else if aliases[i].id == id && accept(aliases[i].symbolType) then Some(i)
    else FindAliasFrom(aliases, id, accept, i + 1)
  }

  /** Namespace::addSymbol: registers an alias unless the id is already
      there; a new alias inherits the namespace's internal flag. */
  function AddAlias(ns: Namespace, aliasId: NamespacedId, t: TypeInfo, symbolType: SymbolType): (r: Namespace)
    requires Parent(aliasId) == ns.id
    ensures Contains(r, aliasId)
    ensures Contains(ns, aliasId) ==> r == ns
    ensures !Contains(ns, aliasId) ==>
      r == ns.(aliases := ns.aliases + [Alias(aliasId, t, symbolType, EmptyValue, ns.internalSymbol)])
  {
    if Contains(ns, aliasId) then ns
    else
      var a := Alias(aliasId, t, symbolType, EmptyValue, ns.internalSymbol);
      assert a in ns.aliases + [a];
      ns.(aliases := ns.aliases + [a])
  }

  /** Registering the same id twice leaves exactly what registering it once left. */
  lemma AddAliasIdempotent(ns: Namespace, aliasId: NamespacedId, t: TypeInfo, symbolType: SymbolType,
                           t2: TypeInfo, symbolType2: SymbolType)
    requires Parent(aliasId) == ns.id
    ensures AddAlias(AddAlias(ns, aliasId, t, symbolType), aliasId, t2, symbolType2) == AddAlias(ns, aliasId, t, symbolType)
    ensures |AddAlias(ns, aliasId, t, symbolType).aliases| <= |ns.aliases| + 1
  {
  }

  // ---------------------------------------------------------------------
  // The registry

  /** The shape every registry keeps: the root first, every other namespace's
      id is its parent's id plus one name, parents come earlier, child and
      used links are in range and agree with the parent links, ids are unique,
      and every alias sits in the namespace its id names. */
  ghost predicate WellFormed(reg: seq<Namespace>)
  {
    && ParentsEarlier(reg)
    && UsedInRange(reg)
    && RootFirst(reg)
    && ParentLinks(reg)
    && LinkedUnderParent(reg)
    && ChildLinks(reg)
    && UniqueIds(reg)
    && AliasesPlaced(reg)
  }

  /** The root namespace, with the empty id and no parent, comes first. */
  ghost predicate RootFirst(reg: seq<Namespace>)
  {
    |reg| > 0 ==> reg[0].id == RootId && reg[0].parent.None?
  }

  /** Every namespace but the root has a parent. */
  ghost predicate ParentLinks(reg: seq<Namespace>)
  {
    forall k {:trigger reg[k].parent} :: 0 < k < |reg| ==> reg[k].parent.Some?
  }

  /** A namespace's id is its parent's id extended by its own name, and it is
      listed among its parent's children. */
  ghost predicate LinkedUnderParent(reg: seq<Namespace>)
  {
    forall k: nat, p: nat {:trigger reg[k].parent, reg[p].id} ::
      k < |reg| && p < |reg| && reg[k].parent == Some(p) ==>
        reg[k].id == ChildId(reg[p].id, Name(reg[k].id)) && k in reg[p].children
  }

  /** Child links are in range and point back through the parent link. */
  ghost predicate ChildLinks(reg: seq<Namespace>)
  {
    forall k: nat, c: nat {:trigger c in reg[k].children} :: k < |reg| && c in reg[k].children ==> 0 < c < |reg| && reg[c].parent == Some(k)
  }

  /** No two namespaces share an id. */
  ghost predicate UniqueIds(reg: seq<Namespace>)
  {
    forall i, j {:trigger reg[i].id, reg[j].id} :: 0 <= i < j < |reg| ==> reg[i].id != reg[j].id
  }

  /** Every alias sits in the namespace its id names. */
  ghost predicate AliasesPlaced(reg: seq<Namespace>)
  {
    forall k, a {:trigger a in reg[k].aliases} :: 0 <= k < |reg| && a in reg[k].aliases ==> Parent(a.id) == reg[k].id
  }

  /** Every parent link points to an earlier namespace, so parent chains end. */
  ghost predicate ParentsEarlier(reg: seq<Namespace>)
  {
    forall k :: 0 <= k < |reg| && reg[k].parent.Some? ==> reg[k].parent.value < k
  }

  /** Every used-namespace link points into the registry. */
  ghost predicate UsedInRange(reg: seq<Namespace>)
  {
    forall k, i :: 0 <= k < |reg| && 0 <= i < |reg[k].used| ==> reg[k].used[i] < |reg|
  }

  /** A symbol is declared when some namespace contains it. */
  ghost predicate Declared(reg: seq<Namespace>, id: NamespacedId)
  {
    exists k :: 0 <= k < |reg| && Contains(reg[k], id)
  }

  /** get(): the registry index of the namespace with this id. */
  function Get(reg: seq<Namespace>, id: NamespacedId): (r: Option<nat>)
    ensures r.Some? ==> r.value < |reg| && reg[r.value].id == id
    ensures r.None? ==> forall k :: 0 <= k < |reg| ==> reg[k].id != id
  {
    GetFrom(reg, id, 0)
  }

  function GetFrom(reg: seq<Namespace>, id: NamespacedId, i: nat): (r: Option<nat>)
    requires i <= |reg|
    requires forall k :: 0 <= k < i ==> reg[k].id != id
    ensures r.Some? ==> i <= r.value < |reg| && reg[r.value].id == id
    ensures r.None? ==> forall k :: 0 <= k < |reg| ==> reg[k].id != id
    decreases |reg| - i
  {
    if i == |reg| then None
    else if reg[i].id == id then Some(i)
    else GetFrom(reg, id, i + 1)
  }

  /** With unique ids, get() finds exactly the namespace with that id. */
  lemma GetUnique(reg: seq<Namespace>, k: nat)
    requires WellFormed(reg) && k < |reg|
    ensures Get(reg, reg[k].id) == Some(k)
  {
    var r := Get(reg, reg[k].id);
    assert reg[r.value].id == reg[k].id;
  }

  /** The top of the parent chain above namespace k. */
  function RootAbove(reg: seq<Namespace>, k: nat): (r: nat)
    requires ParentsEarlier(reg) && k < |reg|
    ensures r < |reg| && reg[r].parent.None?
    decreases k
  {
    match reg[k].parent
    case None => k
    case Some(p) => RootAbove(reg, p)
  }

  /** getRoot(): the top of the chain above the first registered namespace,
      which is the namespace with the empty id. */
  function GetRoot(reg: seq<Namespace>): (r: Option<nat>)
    requires WellFormed(reg)
    ensures r.None? <==> |reg| == 0
    ensures r.Some? ==> r.value == 0 && reg[r.value].id == RootId
  {
    if |reg| == 0 then None else Some(RootAbove(reg, 0))
  }

  // ---------------------------------------------------------------------
  // Read-only queries; a lookup goes to the namespace named by the id's
  // parent and takes the first alias there with the id (and an accepted kind)

  /** The first alias of id in its parent namespace whose kind is accepted. */
  function LookupAlias(reg: seq<Namespace>, id: NamespacedId, accept: SymbolType -> bool): (r: Option<Alias>)
    ensures r.Some? ==> r.value.id == id && accept(r.value.symbolType)
    ensures r.Some? ==> exists k :: 0 <= k < |reg| && reg[k].id == Parent(id) && r.value in reg[k].aliases
    ensures r.None? && Get(reg, Parent(id)).Some? ==>
      forall a :: a in reg[Get(reg, Parent(id)).value].aliases && a.id == id ==> !accept(a.symbolType)
  {
    match Get(reg, Parent(id))
    case None => None
    case Some(p) =>
      match FindAlias(reg[p].aliases, id, accept)
      case None => None
      case Some(i) => Some(reg[p].aliases[i])
  }

  /** getSymbolType(): the kind of the first alias with the id, Unknown when
      there is none; a known kind means the symbol is declared. */
  function SymbolTypeOf(reg: seq<Namespace>, id: NamespacedId): (t: SymbolType)
    ensures t != Unknown ==> Declared(reg, id)
  {
    match LookupAlias(reg, id, AnySymbol)
    case None => Unknown
    case Some(a) =>
      ghost var k :| 0 <= k < |reg| && reg[k].id == Parent(id) && a in reg[k].aliases;
      assert Contains(reg[k], id);
      a.symbolType
  }

  /** getConstantValue(): the value of the first constant-kind alias with the
      id, the empty value when there is none. */
  function ConstantValueOf(reg: seq<Namespace>, id: NamespacedId): (v: VariableStorage)
    ensures v != EmptyValue ==>
      exists k, a :: (0 <= k < |reg| && reg[k].id == Parent(id) && a in reg[k].aliases
                      && a.id == id && IsConstantSymbol(a.symbolType) && a.constantValue == v)
  {
    match LookupAlias(reg, id, IsConstantSymbol)
    case None => EmptyValue
    case Some(a) => a.constantValue
  }

  /** getTypeInfo(): the type of the first alias with the id whose kind is one
      of kinds, the default descriptor when there is none. */
  function TypeInfoOf(reg: seq<Namespace>, id: NamespacedId, kinds: seq<SymbolType>): (t: TypeInfo)
    ensures t != DefaultTypeInfo ==>
      exists k, a :: (0 <= k < |reg| && reg[k].id == Parent(id) && a in reg[k].aliases
                      && a.id == id && a.symbolType in kinds && a.typeInfo == t)
  {
    match LookupAlias(reg, id, KindIn(kinds))
    case None => DefaultTypeInfo
    case Some(a) => a.typeInfo
  }

  /** The kinds a type query accepts. */
  function KindIn(kinds: seq<SymbolType>): SymbolType -> bool
  {
    t => t in kinds
  }

  /** The alias at i of namespace k is the first alias there with the id and
      an accepted kind, and k is the namespace the id's parent names. */
  ghost predicate FirstAliasAt(reg: seq<Namespace>, id: NamespacedId, accept: SymbolType -> bool, k: nat, i: nat)
  {
    && k < |reg| && reg[k].id == Parent(id) && i < |reg[k].aliases|
    && reg[k].aliases[i].id == id && accept(reg[k].aliases[i].symbolType)
    && forall j :: 0 <= j < i ==> !(reg[k].aliases[j].id == id && accept(reg[k].aliases[j].symbolType))
  }

  /** No alias with the id and an accepted kind sits in the namespace the
      id's parent names. */
  ghost predicate NoAliasFor(reg: seq<Namespace>, id: NamespacedId, accept: SymbolType -> bool)
  {
    forall k, a :: 0 <= k < |reg| && reg[k].id == Parent(id) && a in reg[k].aliases && a.id == id ==> !accept(a.symbolType)
  }

  /** In a well-formed registry a lookup finds exactly the first accepted
      alias of the namespace the id's parent names. */
  lemma LookupAliasFirst(reg: seq<Namespace>, id: NamespacedId, accept: SymbolType -> bool, k: nat, i: nat)
    requires WellFormed(reg) && FirstAliasAt(reg, id, accept, k, i)
    ensures LookupAlias(reg, id, accept) == Some(reg[k].aliases[i])
  {
    GetUnique(reg, k);
    var f := FindAlias(reg[k].aliases, id, accept);
    assert f.Some?;
    assert f.value <= i;
    assert f.value >= i;
  }

  /** In a well-formed registry a lookup finds nothing exactly when no
      accepted alias with the id sits in the namespace the id's parent names. */
  lemma LookupAliasNone(reg: seq<Namespace>, id: NamespacedId, accept: SymbolType -> bool)
    requires WellFormed(reg)
    ensures LookupAlias(reg, id, accept).None? <==> NoAliasFor(reg, id, accept)
  {
    if LookupAlias(reg, id, accept).None? {
      forall k, a | 0 <= k < |reg| && reg[k].id == Parent(id) && a in reg[k].aliases && a.id == id
        ensures !accept(a.symbolType)
      {
        GetUnique(reg, k);
        var j :| 0 <= j < |reg[k].aliases| && reg[k].aliases[j] == a;
      }
    }
  }

  /** getSymbolType() reads the kind of the first alias with the id, and is
      Unknown for an id no namespace declares. */
  lemma SymbolTypeReadsFirstAlias(reg: seq<Namespace>, id: NamespacedId)
    requires WellFormed(reg)
    ensures forall k: nat, i: nat :: FirstAliasAt(reg, id, AnySymbol, k, i) ==> SymbolTypeOf(reg, id) == reg[k].aliases[i].symbolType
    ensures !Declared(reg, id) ==> SymbolTypeOf(reg, id) == Unknown
  {
    forall k: nat, i: nat | FirstAliasAt(reg, id, AnySymbol, k, i)
      ensures SymbolTypeOf(reg, id) == reg[k].aliases[i].symbolType
    {
      LookupAliasFirst(reg, id, AnySymbol, k, i);
    }
  }

  /** getConstantValue() reads the value of the first constant-kind alias
      with the id, and is the empty value when there is none. */
  lemma ConstantValueReadsFirstAlias(reg: seq<Namespace>, id: NamespacedId)
    requires WellFormed(reg)
    ensures forall k: nat, i: nat :: FirstAliasAt(reg, id, IsConstantSymbol, k, i) ==>
      ConstantValueOf(reg, id) == reg[k].aliases[i].constantValue
    ensures NoAliasFor(reg, id, IsConstantSymbol) ==> ConstantValueOf(reg, id) == EmptyValue
  {
    forall k: nat, i: nat | FirstAliasAt(reg, id, IsConstantSymbol, k, i)
      ensures ConstantValueOf(reg, id) == reg[k].aliases[i].constantValue
    {
      LookupAliasFirst(reg, id, IsConstantSymbol, k, i);
    }
    LookupAliasNone(reg, id, IsConstantSymbol);
  }

  /** getTypeInfo() reads the type of the first alias with the id whose kind
      is listed, and is the default descriptor when there is none. */
  lemma TypeInfoReadsFirstAlias(reg: seq<Namespace>, id: NamespacedId, kinds: seq<SymbolType>)
    requires WellFormed(reg)
    ensures forall k: nat, i: nat :: FirstAliasAt(reg, id, KindIn(kinds), k, i) ==>
      TypeInfoOf(reg, id, kinds) == reg[k].aliases[i].typeInfo
    ensures NoAliasFor(reg, id, KindIn(kinds)) ==> TypeInfoOf(reg, id, kinds) == DefaultTypeInfo
  {
    forall k: nat, i: nat | FirstAliasAt(reg, id, KindIn(kinds), k, i)
      ensures TypeInfoOf(reg, id, kinds) == reg[k].aliases[i].typeInfo
    {
      LookupAliasFirst(reg, id, KindIn(kinds), k, i);
    }
    LookupAliasNone(reg, id, KindIn(kinds));
  }

  /** isStaticFunctionClass(): some alias with the id has that kind. */
  predicate IsStaticFunctionClassId(reg: seq<Namespace>, id: NamespacedId)
  {
    LookupAlias(reg, id, t => t == StaticFunctionClass).Some?
  }

  lemma IsStaticFunctionClassExactly(reg: seq<Namespace>, id: NamespacedId)
    requires WellFormed(reg)
    ensures IsStaticFunctionClassId(reg, id) <==>
      exists k, a :: 0 <= k < |reg| && reg[k].id == Parent(id) && a in reg[k].aliases
                     && a.id == id && a.symbolType == StaticFunctionClass
  {
    if exists k, a :: 0 <= k < |reg| && reg[k].id == Parent(id) && a in reg[k].aliases
                      && a.id == id && a.symbolType == StaticFunctionClass {
      var k, a :| 0 <= k < |reg| && reg[k].id == Parent(id) && a in reg[k].aliases
                  && a.id == id && a.symbolType == StaticFunctionClass;
      GetUnique(reg, k);
    }
  }

  /** isClassEnumValue(): the first alias with the id is an enum value whose
      type is const. */
  predicate IsClassEnumValue(reg: seq<Namespace>, id: NamespacedId)
  {
    match LookupAlias(reg, id, AnySymbol)
    case None => false
    case Some(a) => a.symbolType == EnumValue && a.typeInfo.isConst
  }

  /** A class enum value is exactly an id whose first alias is an enum value
      and whose enum-value type is const. */
  lemma ClassEnumValueIsEnumValue(reg: seq<Namespace>, id: NamespacedId)
    ensures IsClassEnumValue(reg, id) <==>
      SymbolTypeOf(reg, id) == EnumValue && TypeInfoOf(reg, id, [EnumValue]).isConst
    ensures IsClassEnumValue(reg, id) ==> Declared(reg, id)
  {
    match Get(reg, Parent(id))
    case None =>
    case Some(p) =>
      var aliases := reg[p].aliases;
      match FindAlias(aliases, id, AnySymbol)
      case None =>
        assert FindAlias(aliases, id, KindIn([EnumValue])).None?;
      case Some(i) =>
        if aliases[i].symbolType == EnumValue {
          var f := FindAlias(aliases, id, KindIn([EnumValue]));
          assert KindIn([EnumValue])(aliases[i].symbolType);
          assert f.Some?;
          assert f.value <= i;
          assert f.value >= i;
        }
  }

  /** rootHasNamespace(), with the grouping the language gives it:
      Unknown, or Struct together with an existing namespace. */
  predicate RootHasNamespace(reg: seq<Namespace>, id: NamespacedId)
  {
    var t := SymbolTypeOf(reg, id);
    t == Unknown || (t == Struct && Get(reg, id).Some?)
  }

  /** The grouping makes every undeclared id count as having a namespace,
      whether or not a namespace with that id exists. */
  lemma RootHasNamespaceForUndeclared(reg: seq<Namespace>, id: NamespacedId)
    requires !Declared(reg, id)
    ensures RootHasNamespace(reg, id)
  {
  }

  /** Apart from that, only a struct with a namespace of the same id counts. */
  lemma RootHasNamespaceForDeclared(reg: seq<Namespace>, id: NamespacedId)
    requires SymbolTypeOf(reg, id) != Unknown
    ensures RootHasNamespace(reg, id) <==> SymbolTypeOf(reg, id) == Struct && exists k :: 0 <= k < |reg| && reg[k].id == id
  {
  }

  // ---------------------------------------------------------------------
  // Resolution

  /** The chain of namespaces from p outward to the root. */
  function Ancestors(reg: seq<Namespace>, p: Option<nat>): (r: seq<nat>)
    requires ParentsEarlier(reg) && (p.Some? ==> p.value < |reg|)
    ensures forall i :: 0 <= i < |r| ==> r[i] < |reg|
    decreases if p.Some? then p.value + 1 else 0
  {
    match p
    case None => []
    case Some(k) => [k] + Ancestors(reg, reg[k].parent)
  }

  /** Walks the enclosing namespaces from p outward; the first one holding a
      member called name gives the result. */
  function EnclosingLookup(reg: seq<Namespace>, p: Option<nat>, name: Identifier): (r: Option<NamespacedId>)
    requires ParentsEarlier(reg) && (p.Some? ==> p.value < |reg|)
    ensures r.Some? ==> Declared(reg, r.value) && Name(r.value) == name
    decreases if p.Some? then p.value + 1 else 0
  {
    match p
    case None => None
    case Some(k) =>
      var candidate := ChildId(reg[k].id, name);
      if Contains(reg[k], candidate) then Some(candidate)
      else EnclosingLookup(reg, reg[k].parent, name)
  }

  /** Whether the namespace at index k holds a member called name. */
  predicate HoldsName(reg: seq<Namespace>, k: nat, name: Identifier)
    requires k < |reg|
  {
    Contains(reg[k], ChildId(reg[k].id, name))
  }

  /** The first namespace of chain that holds the name gives the result. */
  function ChainLookup(reg: seq<Namespace>, chain: seq<nat>, name: Identifier): Option<NamespacedId>
    requires forall i :: 0 <= i < |chain| ==> chain[i] < |reg|
  {
    if chain == [] then None
    else if HoldsName(reg, chain[0], name) then Some(ChildId(reg[chain[0]].id, name))
    else ChainLookup(reg, chain[1..], name)
  }

  lemma {:induction false} EnclosingLookupFollowsChain(reg: seq<Namespace>, p: Option<nat>, name: Identifier)
    requires ParentsEarlier(reg) && (p.Some? ==> p.value < |reg|)
    ensures EnclosingLookup(reg, p, name) == ChainLookup(reg, Ancestors(reg, p), name)
    decreases if p.Some? then p.value + 1 else 0
  {
    match p
    case None =>
    case Some(k) =>
      EnclosingLookupFollowsChain(reg, reg[k].parent, name);
      var chain := Ancestors(reg, p);
      assert chain[0] == k && chain[1..] == Ancestors(reg, reg[k].parent);
  }

  lemma {:induction false} ChainLookupFirstHolder(reg: seq<Namespace>, chain: seq<nat>, name: Identifier)
    requires forall i :: 0 <= i < |chain| ==> chain[i] < |reg|
    ensures ChainLookup(reg, chain, name).None? <==> forall j :: 0 <= j < |chain| ==> !HoldsName(reg, chain[j], name)
    ensures ChainLookup(reg, chain, name).Some? ==>
      exists j :: 0 <= j < |chain| && HoldsName(reg, chain[j], name)
        && ChainLookup(reg, chain, name).value == ChildId(reg[chain[j]].id, name)
        && forall i :: 0 <= i < j ==> !HoldsName(reg, chain[i], name)
  {
    if chain != [] && !HoldsName(reg, chain[0], name) {
      var rest := chain[1..];
      ChainLookupFirstHolder(reg, rest, name);
      if ChainLookup(reg, rest, name).Some? {
        var j :| 0 <= j < |rest| && HoldsName(reg, rest[j], name)
          && ChainLookup(reg, rest, name).value == ChildId(reg[rest[j]].id, name)
          && forall i :: 0 <= i < j ==> !HoldsName(reg, rest[i], name);
        assert chain[j + 1] == rest[j];
        forall i | 0 <= i < j + 1 ensures !HoldsName(reg, chain[i], name) {
          if i > 0 { assert chain[i] == rest[i - 1]; }
        }
      } else {
        forall j | 0 <= j < |chain| ensures !HoldsName(reg, chain[j], name) {
          if j > 0 { assert chain[j] == rest[j - 1]; }
        }
      }
      if forall j :: 0 <= j < |chain| ==> !HoldsName(reg, chain[j], name) {
        forall j | 0 <= j < |rest| ensures !HoldsName(reg, rest[j], name) {
          assert rest[j] == chain[j + 1];
        }
      }
    }
  }

  /** Innermost scope wins: the walk returns the member of the first namespace
      on the parent chain that holds the name, and nothing when none does. */
  lemma EnclosingLookupInnermost(reg: seq<Namespace>, p: Option<nat>, name: Identifier)
    requires ParentsEarlier(reg) && (p.Some? ==> p.value < |reg|)
    ensures EnclosingLookup(reg, p, name).None? <==>
      forall j :: 0 <= j < |Ancestors(reg, p)| ==> !HoldsName(reg, Ancestors(reg, p)[j], name)
    ensures EnclosingLookup(reg, p, name).Some? ==>
      exists j :: 0 <= j < |Ancestors(reg, p)| && HoldsName(reg, Ancestors(reg, p)[j], name)
        && EnclosingLookup(reg, p, name).value == ChildId(reg[Ancestors(reg, p)[j]].id, name)
        && forall i :: 0 <= i < j ==> !HoldsName(reg, Ancestors(reg, p)[i], name)
  {
    EnclosingLookupFollowsChain(reg, p, name);
    ChainLookupFirstHolder(reg, Ancestors(reg, p), name);
  }

  /** The members called name found in the used namespaces, in import order. */
  function UsedMatches(reg: seq<Namespace>, used: seq<nat>, name: Identifier): (r: seq<NamespacedId>)
    requires forall i :: 0 <= i < |used| ==> used[i] < |reg|
    ensures |r| <= |used|
    ensures forall x :: x in r ==> Declared(reg, x) && Name(x) == name
  {
    if used == [] then []
    else
      var u := used[|used| - 1];
      var earlier := UsedMatches(reg, used[..|used| - 1], name);
      var candidate := ChildId(reg[u].id, name);
      if Contains(reg[u], candidate) then earlier + [candidate] else earlier
  }

  /** No match comes from the imports exactly when no imported namespace
      holds the name. */
  lemma {:induction false} UsedMatchesNone(reg: seq<Namespace>, used: seq<nat>, name: Identifier)
    requires forall k :: 0 <= k < |used| ==> used[k] < |reg|
    ensures UsedMatches(reg, used, name) == [] <==> forall i :: 0 <= i < |used| ==> !HoldsName(reg, used[i], name)
  {
    if used != [] {
      var n := |used| - 1;
      UsedMatchesNone(reg, used[..n], name);
      assert forall i :: 0 <= i < n ==> used[..n][i] == used[i];
    }
  }

  /** One imported namespace holding the name gives exactly its member. */
  lemma {:induction false} UsedMatchesSingle(reg: seq<Namespace>, used: seq<nat>, name: Identifier, i: nat)
    requires forall k :: 0 <= k < |used| ==> used[k] < |reg|
    requires i < |used| && HoldsName(reg, used[i], name)
    requires forall j :: 0 <= j < |used| && j != i ==> !HoldsName(reg, used[j], name)
    ensures UsedMatches(reg, used, name) == [ChildId(reg[used[i]].id, name)]
  {
    var n := |used| - 1;
    assert forall j :: 0 <= j < n ==> used[..n][j] == used[j];
    if i == n {
      UsedMatchesNone(reg, used[..n], name);
    } else {
      UsedMatchesSingle(reg, used[..n], name, i);
    }
  }

  /** Two distinct import positions that both hold the name give at least two matches. */
  lemma {:induction false} UsedMatchesCountsHolders(reg: seq<Namespace>, used: seq<nat>, name: Identifier, i: nat, j: nat)
    requires forall k :: 0 <= k < |used| ==> used[k] < |reg|
    requires i < j < |used|
    requires HoldsName(reg, used[i], name) && HoldsName(reg, used[j], name)
    ensures |UsedMatches(reg, used, name)| >= 2
  {
    var n := |used| - 1;
    if j == n {
      UsedMatchesHasHolder(reg, used[..n], name, i);
    } else {
      UsedMatchesCountsHolders(reg, used[..n], name, i, j);
    }
  }

  lemma {:induction false} UsedMatchesHasHolder(reg: seq<Namespace>, used: seq<nat>, name: Identifier, i: nat)
    requires forall k :: 0 <= k < |used| ==> used[k] < |reg|
    requires i < |used| && HoldsName(reg, used[i], name)
    ensures |UsedMatches(reg, used, name)| >= 1
  {
    var n := |used| - 1;
    if i < n {
      UsedMatchesHasHolder(reg, used[..n], name, i);
    }
  }

  /** The candidates under the namespace at e: its own member if it has one,
      otherwise the members of the namespaces it uses. */
  function MatchesUnder(reg: seq<Namespace>, e: nat, name: Identifier): (r: seq<NamespacedId>)
    requires UsedInRange(reg) && e < |reg|
    ensures forall x :: x in r ==> Declared(reg, x)
    ensures HoldsName(reg, e, name) ==> r == [ChildId(reg[e].id, name)]
    ensures r == [] <==> !HoldsName(reg, e, name) && forall i :: 0 <= i < |reg[e].used| ==> !HoldsName(reg, reg[e].used[i], name)
  {
    var direct := ChildId(reg[e].id, name);
    UsedMatchesNone(reg, reg[e].used, name);
    if Contains(reg[e], direct) then [direct] else UsedMatches(reg, reg[e].used, name)
  }

  /** The namespace an explicit parent names: as given, else re-rooted under
      the current namespace. */
  function LookupParent(reg: seq<Namespace>, parent: NamespacedId, current: NamespacedId): (r: Option<nat>)
    ensures r.Some? ==> r.value < |reg|
    ensures (exists k :: 0 <= k < |reg| && reg[k].id == parent) ==> r.Some? && reg[r.value].id == parent
    ensures (forall k :: 0 <= k < |reg| ==> reg[k].id != parent) ==>
      (r.Some? <==> exists k :: 0 <= k < |reg| && reg[k].id == Relocate(parent, current))
      && (r.Some? ==> reg[r.value].id == Relocate(parent, current))
  {
    match Get(reg, parent)
    case Some(e) => Some(e)
    case None => Get(reg, Relocate(parent, current))
  }

  /** The outcome of resolve(): its result and the (possibly rewritten) id. */
  datatype Resolution = Resolution(status: Status, id: NamespacedId)

  /** The id's parent names a namespace other than the current one. */
  predicate IsExplicitFrom(id: NamespacedId, current: NamespacedId)
  {
    IsValidId(Parent(id)) && Parent(id) != current
  }

  /** resolve(): own member, then enclosing namespaces innermost first (for an
      id that is not explicit), then the stated or re-rooted parent and the
      namespaces it uses. */
  function Resolve(reg: seq<Namespace>, cursor: Option<nat>, id: NamespacedId, allowZeroMatch: bool): Resolution
    requires ParentsEarlier(reg) && UsedInRange(reg) && (cursor.Some? ==> cursor.value < |reg|)
  {
    match cursor
    case None => Resolution(Fail("no namespace available"), id)
    case Some(c) =>
      if Contains(reg[c], id) then Resolution(Ok, id)
      else
        var name := Name(id);
        var found := if !IsExplicitFrom(id, reg[c].id) then EnclosingLookup(reg, reg[c].parent, name) else None;
        if found.Some? then Resolution(Ok, found.value)
        else
          var existing := LookupParent(reg, Parent(id), reg[c].id);
          var matches := if existing.Some? then MatchesUnder(reg, existing.value, name) else [];
          if !allowZeroMatch && |matches| == 0 then Resolution(Fail(name + " can't be resolved"), id)
          else if |matches| > 1 then Resolution(Fail(name + " is ambiguous"), id)
          else if |matches| == 1 then Resolution(Ok, matches[0])
          else Resolution(Ok, id)
  }

  /** A successful resolution names a declared symbol, except when zero
      matches were allowed and the id came back unchanged; a failure leaves
      the id as it was. */
  lemma ResolvedIsDeclared(reg: seq<Namespace>, cursor: Option<nat>, id: NamespacedId, allowZeroMatch: bool)
    requires ParentsEarlier(reg) && UsedInRange(reg) && (cursor.Some? ==> cursor.value < |reg|)
    ensures var r := Resolve(reg, cursor, id, allowZeroMatch);
      r.status.Ok? ==> Declared(reg, r.id) || (allowZeroMatch && r.id == id)
    ensures var r := Resolve(reg, cursor, id, allowZeroMatch);
      r.status.Fail? ==> r.id == id
  {
    var r := Resolve(reg, cursor, id, allowZeroMatch);
    if cursor.Some? && Contains(reg[cursor.value], id) {
      assert Declared(reg, id);
    }
  }

  /** The three failure messages resolve() can give. */
  lemma ResolveFailures(reg: seq<Namespace>, cursor: Option<nat>, id: NamespacedId, allowZeroMatch: bool)
    requires ParentsEarlier(reg) && UsedInRange(reg) && (cursor.Some? ==> cursor.value < |reg|)
    ensures var r := Resolve(reg, cursor, id, allowZeroMatch);
      r.status.Fail? ==>
        (cursor.None? && r.status.message == "no namespace available")
        || (!allowZeroMatch && r.status.message == Name(id) + " can't be resolved")
        || r.status.message == Name(id) + " is ambiguous"
    ensures cursor.Some? && Contains(reg[cursor.value], id) ==> Resolve(reg, cursor, id, allowZeroMatch) == Resolution(Ok, id)
  {
  }

  /** Lexical scope before imports: for an id that is not explicit, an
      enclosing namespace holding the name wins, and it is the innermost one. */
  lemma ResolveShadowing(reg: seq<Namespace>, c: nat, id: NamespacedId, allowZeroMatch: bool, j: nat)
    requires ParentsEarlier(reg) && UsedInRange(reg) && c < |reg|
    requires !Contains(reg[c], id) && !IsExplicitFrom(id, reg[c].id)
    requires var chain := Ancestors(reg, reg[c].parent);
      j < |chain| && HoldsName(reg, chain[j], Name(id)) && forall i :: 0 <= i < j ==> !HoldsName(reg, chain[i], Name(id))
    ensures Resolve(reg, Some(c), id, allowZeroMatch) ==
      Resolution(Ok, ChildId(reg[Ancestors(reg, reg[c].parent)[j]].id, Name(id)))
  {
    var chain := Ancestors(reg, reg[c].parent);
    EnclosingLookupInnermost(reg, reg[c].parent, Name(id));
    var found := EnclosingLookup(reg, reg[c].parent, Name(id));
    assert found.Some?;
    var j' :| 0 <= j' < |chain| && HoldsName(reg, chain[j'], Name(id))
      && found.value == ChildId(reg[chain[j']].id, Name(id))
      && forall i :: 0 <= i < j' ==> !HoldsName(reg, chain[i], Name(id));
    assert j' >= j;
    assert j' <= j;
  }

  /** When no enclosing namespace holds the name and the parent namespace has
      no such member, two imports that both hold it make the id ambiguous. */
  lemma AmbiguousImports(reg: seq<Namespace>, c: nat, id: NamespacedId, allowZeroMatch: bool, e: nat, i: nat, j: nat)
    requires ParentsEarlier(reg) && UsedInRange(reg) && c < |reg|
    requires !Contains(reg[c], id)
    requires IsExplicitFrom(id, reg[c].id) || EnclosingLookup(reg, reg[c].parent, Name(id)).None?
    requires LookupParent(reg, Parent(id), reg[c].id) == Some(e)
    requires !HoldsName(reg, e, Name(id))
    requires i < j < |reg[e].used|
    requires HoldsName(reg, reg[e].used[i], Name(id)) && HoldsName(reg, reg[e].used[j], Name(id))
    ensures Resolve(reg, Some(c), id, allowZeroMatch) == Resolution(Fail(Name(id) + " is ambiguous"), id)
  {
    UsedMatchesCountsHolders(reg, reg[e].used, Name(id), i, j);
  }

  /** A partly qualified id is found by re-rooting its parent under the
      current namespace when the parent does not exist as given. */
  lemma ResolveRelative(reg: seq<Namespace>, c: nat, id: NamespacedId, allowZeroMatch: bool, e: nat)
    requires ParentsEarlier(reg) && UsedInRange(reg) && c < |reg|
    requires !Contains(reg[c], id) && IsExplicitFrom(id, reg[c].id)
    requires Get(reg, Parent(id)).None? && Get(reg, Relocate(Parent(id), reg[c].id)) == Some(e)
    requires HoldsName(reg, e, Name(id))
    ensures Resolve(reg, Some(c), id, allowZeroMatch) == Resolution(Ok, ChildId(reg[e].id, Name(id)))
  {
  }

  /** Without a cursor resolve() fails and leaves the id alone. */
  lemma ResolveNoCursor(reg: seq<Namespace>, id: NamespacedId, allowZeroMatch: bool)
    requires ParentsEarlier(reg) && UsedInRange(reg)
    ensures Resolve(reg, None, id, allowZeroMatch) == Resolution(Fail("no namespace available"), id)
  {
  }

  /** When neither the enclosing namespaces, nor the stated or re-rooted
      parent, nor its imports hold the name, the id cannot be resolved; with
      zero matches allowed it comes back unchanged instead.
      The last segment of the id is passed separately as name, equal to
      Name(id), so the premises about it use a plain variable rather than
      the function application. */
  lemma ResolveUnresolved(reg: seq<Namespace>, c: nat, id: NamespacedId, name: Identifier, allowZeroMatch: bool)
    requires ParentsEarlier(reg) && UsedInRange(reg) && c < |reg|
    requires name == Name(id) && !Contains(reg[c], id)
    requires IsExplicitFrom(id, reg[c].id) || EnclosingLookup(reg, reg[c].parent, name).None?
    requires var e := LookupParent(reg, Parent(id), reg[c].id);
      e.Some? ==> (!HoldsName(reg, e.value, name)
        && forall i :: 0 <= i < |reg[e.value].used| ==> !HoldsName(reg, reg[e.value].used[i], name))
    ensures Resolve(reg, Some(c), id, allowZeroMatch) ==
      if allowZeroMatch then Resolution(Ok, id) else Resolution(Fail(name + " can't be resolved"), id)
  {
  }

  /** A member of the stated parent itself is the one match, even when
      namespaces that parent uses hold the name too.
      The last segment of the id is passed separately as name, equal to
      Name(id), so the premises about it use a plain variable rather than
      the function application. */
  lemma ResolveDirectMemberWins(reg: seq<Namespace>, c: nat, id: NamespacedId, name: Identifier, allowZeroMatch: bool, e: nat)
    requires ParentsEarlier(reg) && UsedInRange(reg) && c < |reg|
    requires name == Name(id) && !Contains(reg[c], id)
    requires IsExplicitFrom(id, reg[c].id) || EnclosingLookup(reg, reg[c].parent, name).None?
    requires LookupParent(reg, Parent(id), reg[c].id) == Some(e)
    requires HoldsName(reg, e, name)
    ensures Resolve(reg, Some(c), id, allowZeroMatch) == Resolution(Ok, ChildId(reg[e].id, name))
  {
  }

  /** When the stated parent lacks the name and exactly one namespace it uses
      holds it, the id is rewritten to that member.
      The last segment of the id is passed separately as name, equal to
      Name(id), so the premises about it use a plain variable rather than
      the function application. */
  lemma ResolveSingleImport(reg: seq<Namespace>, c: nat, id: NamespacedId, name: Identifier, allowZeroMatch: bool, e: nat, i: nat)
    requires ParentsEarlier(reg) && UsedInRange(reg) && c < |reg|
    requires name == Name(id) && !Contains(reg[c], id)
    requires IsExplicitFrom(id, reg[c].id) || EnclosingLookup(reg, reg[c].parent, name).None?
    requires LookupParent(reg, Parent(id), reg[c].id) == Some(e)
    requires !HoldsName(reg, e, name)
    requires i < |reg[e].used| && HoldsName(reg, reg[e].used[i], name)
    requires forall j :: 0 <= j < |reg[e].used| && j != i ==> !HoldsName(reg, reg[e].used[j], name)
    ensures Resolve(reg, Some(c), id, allowZeroMatch) == Resolution(Ok, ChildId(reg[reg[e].used[i]].id, name))
  {
    UsedMatchesSingle(reg, reg[e].used, name, i);
  }
}
