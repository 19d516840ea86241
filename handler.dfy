/** The namespace handler: the mutable owner of the namespace registry, the
    cursor into it, the struct type list and the template lists. Every method
    states its new state through the value-level definitions of modules
    Namespaces and Templates, and keeps the registry well formed. */
module Handler {
  import opened Common
  import opened Namespaces
  import opened Templates

  // ---------------------------------------------------------------------
  // Registry updates as values

  /** The root namespace a fresh handler creates on its first push. */
  const RootNamespace: Namespace := Namespace(RootId, None, [], [], [], false)

  /** A new namespace called name under the namespace at c, appended to the
      registry and linked into c's children. */
  function AddChild(reg: seq<Namespace>, c: nat, name: Identifier, internal: bool): (r: seq<Namespace>)
    requires c < |reg|
    ensures |r| == |reg| + 1
    ensures r[|reg|] == Namespace(ChildId(reg[c].id, name), Some(c), [], [], [], internal)
    ensures r[c].children == reg[c].children + [|reg|]
    ensures forall k :: 0 <= k < |reg| && k != c ==> r[k] == reg[k]
    ensures r[c] == reg[c].(children := r[c].children)
  {
    reg[c := reg[c].(children := reg[c].children + [|reg|])]
      + [Namespace(ChildId(reg[c].id, name), Some(c), [], [], [], internal)]
  }

  /** Two registries with the same namespaces, parent links and child links;
      only aliases, used lists and flags may differ. */
  ghost predicate SameLinks(reg: seq<Namespace>, reg': seq<Namespace>)
  {
    |reg'| == |reg|
    && forall k :: 0 <= k < |reg| ==>
         reg'[k].id == reg[k].id && reg'[k].parent == reg[k].parent && reg'[k].children == reg[k].children
  }

  lemma SameLinksParentsEarlier(reg: seq<Namespace>, reg': seq<Namespace>)
    requires ParentsEarlier(reg) && SameLinks(reg, reg')
    ensures ParentsEarlier(reg')
  {
    forall k | 0 <= k < |reg'| && reg'[k].parent.Some? ensures reg'[k].parent.value < k {
      assert reg[k].parent == reg'[k].parent;
    }
  }

  lemma SameLinksParentLinks(reg: seq<Namespace>, reg': seq<Namespace>)
    requires ParentLinks(reg) && SameLinks(reg, reg')
    ensures ParentLinks(reg')
  {
    forall k | 0 < k < |reg'| ensures reg'[k].parent.Some? {
      assert reg'[k].parent == reg[k].parent;
    }
  }

  lemma SameLinksLinkedUnderParent(reg: seq<Namespace>, reg': seq<Namespace>)
    requires LinkedUnderParent(reg) && SameLinks(reg, reg')
    ensures LinkedUnderParent(reg')
  {
    forall k: nat, p: nat | k < |reg'| && p < |reg'| && reg'[k].parent == Some(p)
      ensures reg'[k].id == ChildId(reg'[p].id, Name(reg'[k].id)) && k in reg'[p].children
    {
      assert reg'[k].parent == reg[k].parent && reg'[k].id == reg[k].id;
      assert reg'[p].id == reg[p].id && reg'[p].children == reg[p].children;
    }
  }

  lemma SameLinksChildLinks(reg: seq<Namespace>, reg': seq<Namespace>)
    requires ChildLinks(reg) && SameLinks(reg, reg')
    ensures ChildLinks(reg')
  {
    forall k: nat, c: nat | k < |reg'| && c in reg'[k].children ensures 0 < c < |reg'| && reg'[c].parent == Some(k) {
      assert reg'[k].children == reg[k].children;
      assert c in reg[k].children;
      assert 0 < c < |reg| && reg[c].parent == Some(k);
      assert reg'[c].parent == reg[c].parent;
    }
  }

  lemma SameLinksUniqueIds(reg: seq<Namespace>, reg': seq<Namespace>)
    requires UniqueIds(reg) && SameLinks(reg, reg')
    ensures UniqueIds(reg')
  {
    forall i, j | 0 <= i < j < |reg'| ensures reg'[i].id != reg'[j].id {
      assert reg'[i].id == reg[i].id && reg'[j].id == reg[j].id;
    }
  }

  /** Changing aliases and imports keeps the registry well formed as long as
      aliases stay in place and imports stay in range. */
  lemma SameLinksWellFormed(reg: seq<Namespace>, reg': seq<Namespace>)
    requires WellFormed(reg) && SameLinks(reg, reg')
    requires UsedInRange(reg') && AliasesPlaced(reg')
    ensures WellFormed(reg')
  {
    SameLinksParentsEarlier(reg, reg');
    SameLinksParentLinks(reg, reg');
    SameLinksLinkedUnderParent(reg, reg');
    SameLinksChildLinks(reg, reg');
    SameLinksUniqueIds(reg, reg');
    assert RootFirst(reg') by {
      if |reg'| > 0 {
        assert reg'[0].id == reg[0].id && reg'[0].parent == reg[0].parent;
      }
    }
  }

  lemma AddChildParentsEarlier(reg: seq<Namespace>, c: nat, name: Identifier, internal: bool)
    requires ParentsEarlier(reg) && c < |reg|
    ensures ParentsEarlier(AddChild(reg, c, name, internal))
  {
    var r := AddChild(reg, c, name, internal);
    forall k | 0 <= k < |r| && r[k].parent.Some? ensures r[k].parent.value < k {
      if k < |reg| {
        assert r[k].parent == reg[k].parent;
      }
    }
  }

  /** The children lists only grow. */
  lemma AddChildKeepsChildren(reg: seq<Namespace>, c: nat, name: Identifier, internal: bool, k: nat, x: nat)
    requires c < |reg| && k < |reg| && x in reg[k].children
    ensures x in AddChild(reg, c, name, internal)[k].children
  {
    var r := AddChild(reg, c, name, internal);
    if k == c {
      assert r[k].children == reg[k].children + [|reg|];
    }
  }

  lemma AddChildParentLinks(reg: seq<Namespace>, c: nat, name: Identifier, internal: bool)
    requires ParentLinks(reg) && c < |reg|
    ensures ParentLinks(AddChild(reg, c, name, internal))
  {
    var r := AddChild(reg, c, name, internal);
    forall k | 0 < k < |r| ensures r[k].parent.Some? {
      if k < |reg| {
        assert r[k].parent == reg[k].parent;
      }
    }
  }

  /** The link of one namespace to its parent after a child is added. */
  lemma AddChildLinkedAt(reg: seq<Namespace>, c: nat, name: Identifier, internal: bool, k: nat, p: nat)
    requires ParentsEarlier(reg) && LinkedUnderParent(reg) && c < |reg|
    requires var r := AddChild(reg, c, name, internal); k < |r| && p < |r| && r[k].parent == Some(p)
    ensures var r := AddChild(reg, c, name, internal);
      r[k].id == ChildId(r[p].id, Name(r[k].id)) && k in r[p].children
  {
    var r := AddChild(reg, c, name, internal);
    if k < |reg| {
      assert r[k].id == reg[k].id && r[k].parent == reg[k].parent;
      assert p < |reg|;
      assert r[p].id == reg[p].id;
      AddChildKeepsChildren(reg, c, name, internal, p, k);
    } else {
      assert p == c && r[c].id == reg[c].id;
    }
  }

  lemma AddChildLinkedUnderParent(reg: seq<Namespace>, c: nat, name: Identifier, internal: bool)
    requires ParentsEarlier(reg) && LinkedUnderParent(reg) && c < |reg|
    ensures LinkedUnderParent(AddChild(reg, c, name, internal))
  {
    var r := AddChild(reg, c, name, internal);
    forall k: nat, p: nat | k < |r| && p < |r| && r[k].parent == Some(p)
      ensures r[k].id == ChildId(r[p].id, Name(r[k].id)) && k in r[p].children
    {
      AddChildLinkedAt(reg, c, name, internal, k, p);
    }
  }

  lemma AddChildChildLinks(reg: seq<Namespace>, c: nat, name: Identifier, internal: bool)
    requires ChildLinks(reg) && c < |reg|
    ensures ChildLinks(AddChild(reg, c, name, internal))
  {
    var r := AddChild(reg, c, name, internal);
    var n := |reg|;
    forall k: nat, ch: nat | k < |r| && ch in r[k].children ensures 0 < ch < |r| && r[ch].parent == Some(k) {
      if !(k == c && ch == n) {
        assert k < n;
        assert ch in reg[k].children by {
          if k == c {
            assert ch in reg[c].children + [n];
          }
        }
        assert 0 < ch < n && reg[ch].parent == Some(k);
        assert r[ch].parent == reg[ch].parent;
      }
    }
  }

  lemma AddChildUniqueIds(reg: seq<Namespace>, c: nat, name: Identifier, internal: bool)
    requires UniqueIds(reg) && c < |reg|
    requires Get(reg, ChildId(reg[c].id, name)).None?
    ensures UniqueIds(AddChild(reg, c, name, internal))
  {
    var r := AddChild(reg, c, name, internal);
    var n := |reg|;
    forall i, j | 0 <= i < j < |r| ensures r[i].id != r[j].id {
      assert r[i].id == reg[i].id;
      if j < n {
        assert r[j].id == reg[j].id;
      }
    }
  }

  /** Adding a namespace whose id is new keeps the registry well formed. */
  lemma AddChildWellFormed(reg: seq<Namespace>, c: nat, name: Identifier, internal: bool)
    requires WellFormed(reg) && c < |reg|
    requires Get(reg, ChildId(reg[c].id, name)).None?
    ensures WellFormed(AddChild(reg, c, name, internal))
  {
    var r := AddChild(reg, c, name, internal);
    var n := |reg|;
    AddChildParentsEarlier(reg, c, name, internal);
    AddChildParentLinks(reg, c, name, internal);
    AddChildLinkedUnderParent(reg, c, name, internal);
    AddChildChildLinks(reg, c, name, internal);
    AddChildUniqueIds(reg, c, name, internal);
    assert RootFirst(r) by {
      assert r[0].id == reg[0].id && r[0].parent == reg[0].parent;
    }
    assert UsedInRange(r) by {
      forall k, i | 0 <= k < |r| && 0 <= i < |r[k].used| ensures r[k].used[i] < |r| {
        assert k < n && r[k].used == reg[k].used;
      }
    }
    assert AliasesPlaced(r) by {
      forall k, a | 0 <= k < |r| && a in r[k].aliases ensures Parent(a.id) == r[k].id {
        assert k < n && r[k].aliases == reg[k].aliases && r[k].id == reg[k].id;
      }
    }
  }

  /** The new namespace is the one get() finds under its id afterwards. */
  lemma AddChildFound(reg: seq<Namespace>, c: nat, name: Identifier, internal: bool)
    requires WellFormed(reg) && c < |reg|
    requires Get(reg, ChildId(reg[c].id, name)).None?
    ensures Get(AddChild(reg, c, name, internal), ChildId(reg[c].id, name)) == Some(|reg|)
    ensures |reg| in AddChild(reg, c, name, internal)[c].children
  {
    AddChildWellFormed(reg, c, name, internal);
    GetUnique(AddChild(reg, c, name, internal), |reg|);
  }

  /** The registry with the namespace at k replaced by ns. */
  function Replace(reg: seq<Namespace>, k: nat, ns: Namespace): (r: seq<Namespace>)
    requires k < |reg|
    ensures |r| == |reg| && r[k] == ns
    ensures forall j :: 0 <= j < |reg| && j != k ==> r[j] == reg[j]
  {
    reg[k := ns]
  }

  /** Replacing one namespace by one with the same links, imports in range and
      aliases in place keeps the registry well formed. */
  lemma ReplaceWellFormed(reg: seq<Namespace>, k: nat, ns: Namespace)
    requires WellFormed(reg) && k < |reg|
    requires ns.id == reg[k].id && ns.parent == reg[k].parent && ns.children == reg[k].children
    requires forall i :: 0 <= i < |ns.used| ==> ns.used[i] < |reg|
    requires forall a :: a in ns.aliases ==> Parent(a.id) == ns.id
    ensures WellFormed(Replace(reg, k, ns))
  {
    var r := Replace(reg, k, ns);
    assert UsedInRange(r) by {
      forall j, i | 0 <= j < |r| && 0 <= i < |r[j].used| ensures r[j].used[i] < |r| {
        if j != k {
          assert r[j] == reg[j];
        }
      }
    }
    assert AliasesPlaced(r) by {
      forall j, a | 0 <= j < |r| && a in r[j].aliases ensures Parent(a.id) == r[j].id {
        if j != k {
          assert r[j] == reg[j];
        }
      }
    }
    SameLinksWellFormed(reg, r);
  }

  /** The namespace with its alias at i replaced by one with the same id. */
  function ReplaceAlias(ns: Namespace, i: nat, a: Alias): (r: Namespace)
    requires i < |ns.aliases| && a.id == ns.aliases[i].id
    ensures r.id == ns.id && r.parent == ns.parent && r.children == ns.children && r.used == ns.used
    ensures |r.aliases| == |ns.aliases| && r.aliases[i] == a
    ensures forall j :: 0 <= j < |ns.aliases| && j != i ==> r.aliases[j] == ns.aliases[j]
  {
    ns.(aliases := ns.aliases[i := a])
  }

  /** Registry with an alias replaced by one with the same id stays well formed. */
  lemma ReplaceAliasWellFormed(reg: seq<Namespace>, k: nat, i: nat, a: Alias)
    requires WellFormed(reg) && k < |reg| && i < |reg[k].aliases| && a.id == reg[k].aliases[i].id
    ensures WellFormed(Replace(reg, k, ReplaceAlias(reg[k], i, a)))
  {
    var ns := ReplaceAlias(reg[k], i, a);
    forall b | b in ns.aliases ensures Parent(b.id) == ns.id {
      var j :| 0 <= j < |ns.aliases| && ns.aliases[j] == b;
      assert reg[k].aliases[j] in reg[k].aliases;
    }
    ReplaceWellFormed(reg, k, ns);
  }

  // ---------------------------------------------------------------------
  /** A namespace whose id is a child id of the namespace at c is linked as
      one of c's children. */
  lemma ChildIsLinked(reg: seq<Namespace>, c: nat, e: nat)
    requires WellFormed(reg) && c < |reg| && e < |reg|
    requires reg[e].id == ChildId(reg[c].id, Name(reg[e].id))
    ensures e != 0 && reg[e].parent == Some(c)
    ensures e in reg[c].children
  {
    assert e != 0 by {
      assert |reg[e].id.path| > 0;
    }
    var p := reg[e].parent.value;
    assert reg[p].id == Parent(reg[e].id) == reg[c].id;
    GetUnique(reg, p);
    GetUnique(reg, c);
  }

  /** In a non-empty well-formed registry the root id is found at index 0. */
  lemma RootIsFound(reg: seq<Namespace>)
    requires WellFormed(reg) && |reg| > 0
    ensures Get(reg, RootId) == Some(0)
  {
    GetUnique(reg, 0);
  }

  lemma RootOnlyWellFormed()
    ensures WellFormed([RootNamespace])
  {
    var reg := [RootNamespace];
    assert reg[0].children == [] && reg[0].aliases == [];
  }

  // ---------------------------------------------------------------------
  // The cursor

  /** The registry together with the current namespace and the separately
      kept parent cursor. */
  datatype Cursor = Cursor(reg: seq<Namespace>, current: Option<nat>, parent: Option<nat>)

  /** A well-formed registry with a current namespace exactly when it is
      non-empty, and both cursors in range. */
  ghost predicate CursorValid(s: Cursor)
  {
    && WellFormed(s.reg)
    && (s.current.None? <==> |s.reg| == 0)
    && (s.current.Some? ==> s.current.value < |s.reg|)
    && (s.parent.Some? ==> s.parent.value < |s.reg|)
  }

  /** The registry only grows: every namespace keeps its index, id and parent. */
  ghost predicate KeepsNamespaces(reg: seq<Namespace>, reg': seq<Namespace>)
  {
    |reg| <= |reg'|
    && forall k :: 0 <= k < |reg| ==> reg'[k].id == reg[k].id && reg'[k].parent == reg[k].parent
  }

  /** pushNamespace(Identifier): the first push creates the root; an empty
      name moves to the root; otherwise the cursor moves to the child called
      name, which is created and linked under the old cursor when new. */
  function PushName(s: Cursor, internal: bool, name: Identifier): (r: Cursor)
    requires CursorValid(s)
    ensures CursorValid(r) && KeepsNamespaces(s.reg, r.reg) && r.current.Some?
    ensures s.current.None? ==> r.reg == [RootNamespace] && r.current == Some(0) && r.parent == s.parent
    ensures s.current.Some? && name == "" ==> r.reg == s.reg && r.current == Some(0) && r.parent == s.parent
    ensures s.current.Some? && name != "" ==>
      var c := s.current.value;
      && r.parent == s.current
      && r.reg[r.current.value].id == ChildId(s.reg[c].id, name)
      && r.reg[r.current.value].parent == Some(c)
      && r.current.value in r.reg[c].children
      && (Get(s.reg, ChildId(s.reg[c].id, name)).Some? <==> r.reg == s.reg)
      && (Get(s.reg, ChildId(s.reg[c].id, name)).None? ==> r.reg[r.current.value].internalSymbol == internal)
  {
    match s.current
    case None =>
      RootOnlyWellFormed();
      Cursor([RootNamespace], Some(0), s.parent)
    case Some(c) =>
      if name == "" then
        Cursor(s.reg, Some(0), s.parent)
      else
        var childId := ChildId(s.reg[c].id, name);
        match Get(s.reg, childId)
        case Some(e) =>
          ChildIsLinked(s.reg, c, e);
          Cursor(s.reg, Some(e), Some(c))
        case None =>
          AddChildWellFormed(s.reg, c, name, internal);
          AddChildFound(s.reg, c, name, internal);
          Cursor(AddChild(s.reg, c, name, internal), Some(|s.reg|), Some(c))
  }

  /** pushNamespace(NamespacedIdentifier): an existing namespace becomes the
      cursor and its parent the parent cursor; otherwise an explicit id
      pushes only its own name below the cursor, and any other id pushes its
      parent and then its name. */
  function PushId(s: Cursor, internal: bool, id: NamespacedId): (r: Cursor)
    requires CursorValid(s) && (|s.reg| > 0 || IsExplicit(id))
    ensures CursorValid(r) && KeepsNamespaces(s.reg, r.reg) && r.current.Some?
    ensures Get(s.reg, id).Some? ==>
      r.reg == s.reg && r.current == Get(s.reg, id) && r.parent == s.reg[r.current.value].parent
    ensures Get(s.reg, id).None? && !IsExplicit(id) && IsValidId(id) ==>
      r.reg[r.current.value].id == id
    ensures Get(s.reg, id).None? && IsExplicit(id) && s.current.Some? && IsValidId(id) ==>
      r.reg[r.current.value].id == ChildId(s.reg[s.current.value].id, Name(id))
    decreases |id.path|
  {
    match Get(s.reg, id)
    case Some(e) =>
      Cursor(s.reg, Some(e), s.reg[e].parent)
    case None =>
      if IsExplicit(id) then
        PushName(s, internal, Name(id))
      else
        RootIsFound(s.reg);
        assert id != RootId;
        assert Parent(id) == RootId && ChildId(RootId, Name(id)) == id;
        PushName(PushId(s, internal, Parent(id)), internal, Name(id))
  }

  /** After pushing a valid id that is not explicit, get() finds the cursor
      under that id. */
  lemma PushIdFindsNamespace(s: Cursor, internal: bool, id: NamespacedId)
    requires CursorValid(s) && (|s.reg| > 0 || IsExplicit(id))
    requires !IsExplicit(id) && IsValidId(id)
    ensures var r := PushId(s, internal, id);
      Get(r.reg, id) == r.current
  {
    var r := PushId(s, internal, id);
    GetUnique(r.reg, r.current.value);
  }

  /** popNamespace(): nothing to do at the root; fails when the parent cursor
      is unset; otherwise moves the cursor to its namespace's parent and
      leaves the parent cursor as it was. */
  function Pop(s: Cursor): (r: (Status, Cursor))
    requires CursorValid(s)
    ensures CursorValid(r.1) && r.1.reg == s.reg && r.1.parent == s.parent
    ensures r.0 == Fail("Can't pop namespace") <==> s.current != GetRoot(s.reg) && s.parent.None?
    ensures r.0.Fail? ==> r.1 == s
    ensures s.current == GetRoot(s.reg) ==> r == (Ok, s)
    ensures s.current != GetRoot(s.reg) && s.parent.Some? ==>
      s.current.Some? && r.0 == Ok && r.1.current == s.reg[s.current.value].parent
    ensures r.1.current.Some? && r.1.current != s.current ==>
      s.current.Some? && r.1.current == s.reg[s.current.value].parent
      && s.reg[r.1.current.value].id == Parent(s.reg[s.current.value].id)
  {
    if s.current == GetRoot(s.reg) then (Ok, s)
    else if s.parent.None? then (Fail("Can't pop namespace"), s)
    else
      var c := s.current.value;
      assert c > 0;
      (Ok, s.(current := s.reg[c].parent))
  }

  /** Pushing a new name and popping again returns the cursor to where it was. */
  lemma PushThenPopRestores(s: Cursor, internal: bool, name: Identifier)
    requires CursorValid(s) && s.current.Some? && name != ""
    ensures Pop(PushName(s, internal, name)) == (Ok, PushName(s, internal, name).(current := s.current))
  {
    var r := PushName(s, internal, name);
    var e := r.current.value;
    ChildIsLinked(r.reg, s.current.value, e);
    assert r.current != GetRoot(r.reg);
  }

  /** The parent cursor is never cleared by popping, so once set, pop only
      stops at the root. */
  lemma PopNeverFailsOncePushed(s: Cursor, internal: bool, name: Identifier)
    requires CursorValid(s) && s.current.Some? && name != ""
    ensures var r := PushName(s, internal, name);
      Pop(r).0 == Ok && Pop(Pop(r).1).0 == Ok
  {
  }

  // ---------------------------------------------------------------------
  // Alias updates as values

  /** The alias at i is the first with the id when no earlier alias has it. */
  lemma FindAliasAt(aliases: seq<Alias>, id: NamespacedId, accept: SymbolType -> bool, i: nat)
    requires i < |aliases| && aliases[i].id == id && accept(aliases[i].symbolType)
    requires forall k :: 0 <= k < i ==> aliases[k].id != id
    ensures FindAlias(aliases, id, accept) == Some(i)
  {
    var f := FindAlias(aliases, id, accept);
    assert f.Some?;
    assert f.value <= i;
    assert f.value >= i;
  }

  /** The handler's addSymbol(): the current namespace takes the handler's
      internal mode, then Namespace::addSymbol adds the alias. */
  function AddSymbolAt(reg: seq<Namespace>, c: nat, id: NamespacedId, t: TypeInfo, kind: SymbolType, mode: bool): (r: seq<Namespace>)
    requires WellFormed(reg) && c < |reg| && Parent(id) == reg[c].id
    ensures WellFormed(r) && SameLinks(reg, r)
    ensures Contains(r[c], id) && r[c].internalSymbol == mode
    ensures |r| == |reg| && forall k :: 0 <= k < |reg| && k != c ==> r[k] == reg[k]
    ensures Contains(reg[c], id) ==> r[c] == reg[c].(internalSymbol := mode)
    ensures !Contains(reg[c], id) ==>
      r[c] == reg[c].(internalSymbol := mode, aliases := reg[c].aliases + [Alias(id, t, kind, EmptyValue, mode)])
  {
    var ns := AddAlias(reg[c].(internalSymbol := mode), id, t, kind);
    assert forall a :: a in reg[c].aliases ==> Parent(a.id) == reg[c].id;
    ReplaceWellFormed(reg, c, ns);
    Replace(reg, c, ns)
  }

  /** After addSymbol() the symbol resolves to itself from its namespace. */
  lemma AddSymbolResolves(reg: seq<Namespace>, c: nat, id: NamespacedId, t: TypeInfo, kind: SymbolType, mode: bool, allowZeroMatch: bool)
    requires WellFormed(reg) && c < |reg| && Parent(id) == reg[c].id
    ensures var r := AddSymbolAt(reg, c, id, t, kind, mode);
      Resolve(r, Some(c), id, allowZeroMatch) == Resolution(Ok, id)
  {
  }

  /** A symbol new to its namespace has the kind it was added with; adding it
      again changes nothing. */
  lemma AddSymbolSetsKind(reg: seq<Namespace>, c: nat, id: NamespacedId, t: TypeInfo, kind: SymbolType, mode: bool)
    requires WellFormed(reg) && c < |reg| && Parent(id) == reg[c].id && !Contains(reg[c], id)
    ensures SymbolTypeOf(AddSymbolAt(reg, c, id, t, kind, mode), id) == kind
    ensures var r := AddSymbolAt(reg, c, id, t, kind, mode);
      AddSymbolAt(r, c, id, t, kind, mode) == r
  {
    var r := AddSymbolAt(reg, c, id, t, kind, mode);
    GetUnique(r, c);
    var n := |reg[c].aliases|;
    assert r[c].aliases == reg[c].aliases + [Alias(id, t, kind, EmptyValue, mode)];
    forall k | 0 <= k < n ensures r[c].aliases[k].id != id {
      assert r[c].aliases[k] == reg[c].aliases[k];
      assert reg[c].aliases[k] in reg[c].aliases;
    }
    FindAliasAt(r[c].aliases, id, AnySymbol, n);
  }

  /** addConstant(): the first alias of the current namespace with the id
      takes the value, converted to the alias's type when that differs. */
  function SetConstantAt(reg: seq<Namespace>, c: nat, id: NamespacedId, v: VariableStorage,
                         coerce: (TypeId, VariableStorage) -> VariableStorage): (r: (Status, seq<Namespace>))
    requires WellFormed(reg) && c < |reg|
    ensures WellFormed(r.1) && SameLinks(reg, r.1)
    ensures r.0 == Ok <==> FindAlias(reg[c].aliases, id, AnySymbol).Some?
    ensures r.0 != Ok ==> r == (Fail("fail"), reg)
    ensures r.0 == Ok ==>
      var i := FindAlias(reg[c].aliases, id, AnySymbol).value;
      var a := reg[c].aliases[i];
      |r.1| == |reg| && (forall k :: 0 <= k < |reg| && k != c ==> r.1[k] == reg[k])
      && r.1[c] == reg[c].(aliases := reg[c].aliases[i := a.(constantValue :=
           if TypeIdOf(a.typeInfo) == v.typeId then v else coerce(TypeIdOf(a.typeInfo), v))])
  {
    match FindAlias(reg[c].aliases, id, AnySymbol)
    case None => (Fail("fail"), reg)
    case Some(i) =>
      var a := reg[c].aliases[i];
      var value := if TypeIdOf(a.typeInfo) == v.typeId then v else coerce(TypeIdOf(a.typeInfo), v);
      ReplaceAliasWellFormed(reg, c, i, a.(constantValue := value));
      (Ok, Replace(reg, c, ReplaceAlias(reg[c], i, a.(constantValue := value))))
  }

  /** A constant stored with its alias's own type is what getConstantValue()
      then returns. */
  lemma ConstantIsStored(reg: seq<Namespace>, c: nat, id: NamespacedId, v: VariableStorage,
                         coerce: (TypeId, VariableStorage) -> VariableStorage)
    requires WellFormed(reg) && c < |reg| && Parent(id) == reg[c].id
    requires FindAlias(reg[c].aliases, id, AnySymbol).Some?
    requires var a := reg[c].aliases[FindAlias(reg[c].aliases, id, AnySymbol).value];
      IsConstantSymbol(a.symbolType) && TypeIdOf(a.typeInfo) == v.typeId
    ensures ConstantValueOf(SetConstantAt(reg, c, id, v, coerce).1, id) == v
  {
    var i := FindAlias(reg[c].aliases, id, AnySymbol).value;
    var r := SetConstantAt(reg, c, id, v, coerce).1;
    GetUnique(r, c);
    forall k | 0 <= k < i ensures r[c].aliases[k].id != id {
      assert r[c].aliases[k] == reg[c].aliases[k];
    }
    FindAliasAt(r[c].aliases, id, IsConstantSymbol, i);
  }

  /** A constant whose type differs from its alias's type is stored as the
      conversion of the value to the alias's type. */
  lemma ConstantIsCoerced(reg: seq<Namespace>, c: nat, id: NamespacedId, v: VariableStorage,
                          coerce: (TypeId, VariableStorage) -> VariableStorage)
    requires WellFormed(reg) && c < |reg| && Parent(id) == reg[c].id
    requires FindAlias(reg[c].aliases, id, AnySymbol).Some?
    requires var a := reg[c].aliases[FindAlias(reg[c].aliases, id, AnySymbol).value];
      IsConstantSymbol(a.symbolType) && TypeIdOf(a.typeInfo) != v.typeId
    ensures var a := reg[c].aliases[FindAlias(reg[c].aliases, id, AnySymbol).value];
      ConstantValueOf(SetConstantAt(reg, c, id, v, coerce).1, id) == coerce(TypeIdOf(a.typeInfo), v)
  {
    var i := FindAlias(reg[c].aliases, id, AnySymbol).value;
    var r := SetConstantAt(reg, c, id, v, coerce).1;
    GetUnique(r, c);
    forall k | 0 <= k < i ensures r[c].aliases[k].id != id {
      assert r[c].aliases[k] == reg[c].aliases[k];
    }
    FindAliasAt(r[c].aliases, id, IsConstantSymbol, i);
  }

  /** setTypeInfo(): the namespace named by the id's parent, the first alias
      there with the id, and its kind must match before the type is set. */
  function SetTypeAt(reg: seq<Namespace>, id: NamespacedId, expected: SymbolType, t: TypeInfo): (r: (Status, seq<Namespace>))
    requires WellFormed(reg)
    ensures WellFormed(r.1) && SameLinks(reg, r.1)
    ensures r.0 != Ok ==> r.1 == reg
    ensures r.0 == Fail("Can't find namespace") <==> Get(reg, Parent(id)).None?
    ensures r.0 == Fail("Can't find symbol") <==> Get(reg, Parent(id)).Some? && LookupAlias(reg, id, AnySymbol).None?
    ensures r.0 == Ok <==> LookupAlias(reg, id, AnySymbol).Some? && LookupAlias(reg, id, AnySymbol).value.symbolType == expected
    ensures r.0 == Fail("Symbol type mismatch") <==>
      LookupAlias(reg, id, AnySymbol).Some? && LookupAlias(reg, id, AnySymbol).value.symbolType != expected
    ensures r.0 == Ok ==>
      var p := Get(reg, Parent(id)).value;
      var i := FindAlias(reg[p].aliases, id, AnySymbol).value;
      |r.1| == |reg| && (forall k :: 0 <= k < |reg| && k != p ==> r.1[k] == reg[k])
      && r.1[p] == reg[p].(aliases := reg[p].aliases[i := reg[p].aliases[i].(typeInfo := t)])
  {
    match Get(reg, Parent(id))
    case None => (Fail("Can't find namespace"), reg)
    case Some(p) =>
      match FindAlias(reg[p].aliases, id, AnySymbol)
      case None => (Fail("Can't find symbol"), reg)
      case Some(i) =>
        var a := reg[p].aliases[i];
        if a.symbolType == expected then
          ReplaceAliasWellFormed(reg, p, i, a.(typeInfo := t));
          (Ok, Replace(reg, p, ReplaceAlias(reg[p], i, a.(typeInfo := t))))
        else (Fail("Symbol type mismatch"), reg)
  }

  /** After a successful setTypeInfo() a type query that accepts the kind
      returns the new type. */
  lemma TypeIsStored(reg: seq<Namespace>, id: NamespacedId, expected: SymbolType, t: TypeInfo, kinds: seq<SymbolType>)
    requires WellFormed(reg) && expected in kinds
    requires SetTypeAt(reg, id, expected, t).0 == Ok
    ensures TypeInfoOf(SetTypeAt(reg, id, expected, t).1, id, kinds) == t
  {
    var p := Get(reg, Parent(id)).value;
    var i := FindAlias(reg[p].aliases, id, AnySymbol).value;
    var r := SetTypeAt(reg, id, expected, t).1;
    GetUnique(r, p);
    forall k | 0 <= k < i ensures r[p].aliases[k].id != id {
      assert r[p].aliases[k] == reg[p].aliases[k];
    }
    FindAliasAt(r[p].aliases, id, KindIn(kinds), i);
  }

  /** The alias update of changeSymbolType(): the first alias with the id
      takes the new kind. */
  function SetKindAt(reg: seq<Namespace>, id: NamespacedId, kind: SymbolType): (r: (bool, seq<Namespace>))
    requires WellFormed(reg)
    ensures WellFormed(r.1) && SameLinks(reg, r.1)
    ensures r.0 <==> LookupAlias(reg, id, AnySymbol).Some?
    ensures !r.0 ==> r.1 == reg
    ensures r.0 ==>
      var p := Get(reg, Parent(id)).value;
      var i := FindAlias(reg[p].aliases, id, AnySymbol).value;
      |r.1| == |reg| && (forall k :: 0 <= k < |reg| && k != p ==> r.1[k] == reg[k])
      && r.1[p] == reg[p].(aliases := reg[p].aliases[i := reg[p].aliases[i].(symbolType := kind)])
  {
    match Get(reg, Parent(id))
    case None => (false, reg)
    case Some(p) =>
      match FindAlias(reg[p].aliases, id, AnySymbol)
      case None => (false, reg)
      case Some(i) =>
        var a := reg[p].aliases[i];
        ReplaceAliasWellFormed(reg, p, i, a.(symbolType := kind));
        (true, Replace(reg, p, ReplaceAlias(reg[p], i, a.(symbolType := kind))))
  }

  /** After a change, getSymbolType() reports the new kind. */
  lemma KindIsChanged(reg: seq<Namespace>, id: NamespacedId, kind: SymbolType)
    requires WellFormed(reg) && SetKindAt(reg, id, kind).0
    ensures SymbolTypeOf(SetKindAt(reg, id, kind).1, id) == kind
  {
    var p := Get(reg, Parent(id)).value;
    var i := FindAlias(reg[p].aliases, id, AnySymbol).value;
    var r := SetKindAt(reg, id, kind).1;
    GetUnique(r, p);
    forall k | 0 <= k < i ensures r[p].aliases[k].id != id {
      assert r[p].aliases[k] == reg[p].aliases[k];
    }
    FindAliasAt(r[p].aliases, id, AnySymbol, i);
  }

  /** addUsedNamespace(): the namespace with the id is imported into the
      namespace at c. */
  function UseNamespace(reg: seq<Namespace>, c: nat, usedId: NamespacedId): (r: (Status, seq<Namespace>))
    requires WellFormed(reg) && c < |reg|
    ensures WellFormed(r.1) && SameLinks(reg, r.1)
    ensures r.0 == Ok <==> Get(reg, usedId).Some?
    ensures r.0 != Ok ==> r == (Fail("Can't find namespace " + IdToString(usedId)), reg)
    ensures r.0 == Ok ==>
      |r.1| == |reg| && (forall k :: 0 <= k < |reg| && k != c ==> r.1[k] == reg[k])
      && r.1[c] == reg[c].(used := reg[c].used + [Get(reg, usedId).value])
  {
    match Get(reg, usedId)
    case None => (Fail("Can't find namespace " + IdToString(usedId)), reg)
    case Some(e) =>
      var ns := reg[c].(used := reg[c].used + [e]);
      assert forall a :: a in ns.aliases ==> Parent(a.id) == ns.id;
      ReplaceWellFormed(reg, c, ns);
      (Ok, Replace(reg, c, ns))
  }

  /** After an import, a member of the imported namespace is the last
      candidate resolution collects from the importing namespace. */
  lemma ImportedMemberIsCandidate(reg: seq<Namespace>, c: nat, usedId: NamespacedId, name: Identifier)
    requires WellFormed(reg) && c < |reg| && Get(reg, usedId).Some?
    requires !HoldsName(reg, c, name) && HoldsName(reg, Get(reg, usedId).value, name)
    ensures var r := UseNamespace(reg, c, usedId).1;
      var m := MatchesUnder(r, c, name);
      |m| > 0 && m[|m| - 1] == ChildId(usedId, name)
  {
    var r := UseNamespace(reg, c, usedId).1;
    var e := Get(reg, usedId).value;
    assert r[e].id == reg[e].id && r[e].aliases == reg[e].aliases;
    assert r[c].id == reg[c].id && r[c].aliases == reg[c].aliases;
    var used := r[c].used;
    assert used[..|used| - 1] == reg[c].used;
  }

  /** The alias addTemplateClass() and addTemplateFunction() add to the
      namespace named by the id's parent, with no check for an existing one. */
  function AppendAlias(reg: seq<Namespace>, id: NamespacedId, kind: SymbolType, mode: bool): (r: seq<Namespace>)
    requires WellFormed(reg)
    ensures WellFormed(r) && SameLinks(reg, r)
    ensures Get(reg, Parent(id)).None? ==> r == reg
    ensures Get(reg, Parent(id)).Some? ==>
      var p := Get(reg, Parent(id)).value;
      |r| == |reg| && (forall k :: 0 <= k < |reg| && k != p ==> r[k] == reg[k])
      && r[p] == reg[p].(aliases := reg[p].aliases + [Alias(id, DefaultTypeInfo, kind, EmptyValue, mode)])
  {
    match Get(reg, Parent(id))
    case None => reg
    case Some(p) =>
      var ns := reg[p].(aliases := reg[p].aliases + [Alias(id, DefaultTypeInfo, kind, EmptyValue, mode)]);
      assert forall a :: a in reg[p].aliases ==> Parent(a.id) == reg[p].id;
      ReplaceWellFormed(reg, p, ns);
      Replace(reg, p, ns)
  }

  /** A template registered where its parent namespace exists is declared there. */
  lemma AppendedTemplateIsDeclared(reg: seq<Namespace>, id: NamespacedId, kind: SymbolType, mode: bool)
    requires WellFormed(reg) && Get(reg, Parent(id)).Some?
    ensures Declared(AppendAlias(reg, id, kind, mode), id)
  {
    var p := Get(reg, Parent(id)).value;
    var r := AppendAlias(reg, id, kind, mode);
    assert r[p].aliases[|r[p].aliases| - 1].id == id;
    assert Contains(r[p], id);
  }

  /** The cursor after adding a template: the root is pushed when there is
      no cursor, then the template's alias is appended. */
  function AddTemplateAlias(s: Cursor, mode: bool, id: NamespacedId, kind: SymbolType): (r: Cursor)
    requires CursorValid(s)
    ensures CursorValid(r) && SameLinks((if s.current.None? then PushName(s, mode, "") else s).reg, r.reg)
    ensures s.current.None? ==>
      r == Cursor(AppendAlias([RootNamespace], id, kind, mode), Some(0), s.parent)
    ensures s.current.Some? ==> r == s.(reg := AppendAlias(s.reg, id, kind, mode))
  {
    var s1 := if s.current.None? then PushName(s, mode, "") else s;
    s1.(reg := AppendAlias(s1.reg, id, kind, mode))
  }

  // ---------------------------------------------------------------------
  // The handler's search loops, over registry values

  /** get(): the registry is searched front to back. */
  method FindNamespace(reg: seq<Namespace>, id: NamespacedId) returns (r: Option<nat>)
    ensures r == Get(reg, id)
  {
    var i := 0;
    while i < |reg|
      invariant 0 <= i <= |reg|
      invariant forall k :: 0 <= k < i ==> reg[k].id != id
      invariant Get(reg, id) == GetFrom(reg, id, i)
    {
      if reg[i].id == id {
        return Some(i);
      }
      i := i + 1;
    }
    return None;
  }

  /** The walk of resolve() over the enclosing namespaces, innermost first. */
  method ScanEnclosing(reg: seq<Namespace>, p: Option<nat>, name: Identifier) returns (r: Option<NamespacedId>)
    requires ParentsEarlier(reg) && (p.Some? ==> p.value < |reg|)
    ensures r == EnclosingLookup(reg, p, name)
  {
    var q: Option<nat> := p;
    while q.Some?
      invariant q.Some? ==> q.value < |reg|
      invariant EnclosingLookup(reg, q, name) == EnclosingLookup(reg, p, name)
      decreases if q.Some? then q.value + 1 else 0
    {
      var candidate := ChildId(reg[q.value].id, name);
      if Contains(reg[q.value], candidate) {
        return Some(candidate);
      }
      q := reg[q.value].parent;
    }
    return None;
  }

  /** The scan of resolve() over the used namespaces, collecting every member
      called name in import order. */
  method ScanUsed(reg: seq<Namespace>, used: seq<nat>, name: Identifier) returns (matches: seq<NamespacedId>)
    requires forall k :: 0 <= k < |used| ==> used[k] < |reg|
    ensures matches == UsedMatches(reg, used, name)
  {
    matches := [];
    var i := 0;
    while i < |used|
      invariant 0 <= i <= |used|
      invariant matches == UsedMatches(reg, used[..i], name)
    {
      var possible := ChildId(reg[used[i]].id, name);
      if Contains(reg[used[i]], possible) {
        matches := matches + [possible];
      }
      assert used[..i + 1][..i] == used[..i];
      i := i + 1;
    }
    assert used[..i] == used;
  }

  /** resolve() over a registry and a cursor, computing what Resolve describes. */
  method ResolveIn(reg: seq<Namespace>, cursor: Option<nat>, id: NamespacedId, allowZeroMatch: bool)
    returns (r: Status, resolved: NamespacedId)
    requires ParentsEarlier(reg) && UsedInRange(reg) && (cursor.Some? ==> cursor.value < |reg|)
    ensures Resolution(r, resolved) == Resolve(reg, cursor, id, allowZeroMatch)
  {
    if cursor.None? {
      return Fail("no namespace available"), id;
    }
    var c := cursor.value;
    if Contains(reg[c], id) {
      return Ok, id;
    }
    var name := Name(id);
    if !IsExplicitFrom(id, reg[c].id) {
      var found := ScanEnclosing(reg, reg[c].parent, name);
      if found.Some? {
        return Ok, found.value;
      }
    }
    var e := FindNamespace(reg, Parent(id));
    if e.None? {
      e := FindNamespace(reg, Relocate(Parent(id), reg[c].id));
    }
    var matches: seq<NamespacedId> := [];
    if e.Some? {
      var direct := ChildId(reg[e.value].id, name);
      if Contains(reg[e.value], direct) {
        matches := [direct];
      } else {
        matches := ScanUsed(reg, reg[e.value].used, name);
      }
    }
    if !allowZeroMatch && |matches| == 0 {
      return Fail(name + " can't be resolved"), id;
    }
    if |matches| > 1 {
      return Fail(name + " is ambiguous"), id;
    }
    if |matches| == 1 {
      return Ok, matches[0];
    }
    return Ok, id;
  }

  /** The search loop shared by addConstant(), setTypeInfo() and
      changeSymbolType(): the index of the first alias with the id. */
  method FindAliasIndex(aliases: seq<Alias>, id: NamespacedId) returns (r: Option<nat>)
    ensures r == FindAlias(aliases, id, AnySymbol)
  {
    var i := 0;
    while i < |aliases|
      invariant 0 <= i <= |aliases|
      invariant forall k :: 0 <= k < i ==> aliases[k].id != id
    {
      if aliases[i].id == id {
        FindAliasAt(aliases, id, AnySymbol, i);
        return Some(i);
      }
      i := i + 1;
    }
    return None;
  }

  /** Some parameter still has an open template type. */
  predicate HasOpenParameter(tp: seq<TemplateParameter>)
  {
    exists k :: 0 <= k < |tp| && IsTemplateType(tp[k].typeInfo)
  }

  /** The scan of createTemplateInstantiation() for an open parameter. */
  method AnyOpenParameter(tp: seq<TemplateParameter>) returns (b: bool)
    ensures b == HasOpenParameter(tp)
  {
    b := false;
    var i := 0;
    while i < |tp|
      invariant 0 <= i <= |tp|
      invariant !b ==> forall k :: 0 <= k < i ==> !IsTemplateType(tp[k].typeInfo)
      invariant b ==> HasOpenParameter(tp)
    {
      if IsTemplateType(tp[i].typeInfo) {
        b := true;
        break;
      }
      i := i + 1;
    }
  }

  /** The first registered type matching t is at i when none before it does. */
  lemma FirstMatchAt(types: seq<ComplexType>, t: ComplexType, matches: (ComplexType, ComplexType) -> bool, i: nat)
    requires i < |types| && matches(types[i], t)
    requires forall k :: 0 <= k < i ==> !matches(types[k], t)
    ensures FirstMatch(types, t, matches) == Some(i)
  {
    var f := FirstMatch(types, t, matches);
    assert f.Some?;
    assert f.value <= i;
    assert f.value >= i;
  }

  /** The scan of registerComplexTypeOrReturnExisting() for a matching type. */
  method FirstMatchIndex(types: seq<ComplexType>, t: ComplexType, matches: (ComplexType, ComplexType) -> bool)
    returns (r: Option<nat>)
    ensures r == FirstMatch(types, t, matches)
  {
    var i := 0;
    while i < |types|
      invariant 0 <= i <= |types|
      invariant forall k :: 0 <= k < i ==> !matches(types[k], t)
    {
      if matches(types[i], t) {
        FirstMatchAt(types, t, matches, i);
        return Some(i);
      }
      i := i + 1;
    }
    return None;
  }

  /** The scan of a template list for an id. */
  method FindTemplateIndex(list: seq<TemplateObject>, id: NamespacedId) returns (r: Option<nat>)
    ensures r == FindTemplate(list, id)
  {
    var i := 0;
    while i < |list|
      invariant 0 <= i <= |list|
      invariant forall k :: 0 <= k < i ==> list[k].id != id
    {
      if list[i].id == id {
        FindTemplateAt(list, id, i);
        return Some(i);
      }
      i := i + 1;
    }
    return None;
  }

  /** The in-place pass of addTemplateClass(): every registered template that
      s encloses gets s's arguments in front of its own. */
  method InheritArguments(list: seq<TemplateObject>, s: TemplateObject) returns (r: seq<TemplateObject>)
    ensures r == InheritAll(s, list)
  {
    r := list;
    var i := 0;
    while i < |r|
      invariant 0 <= i <= |r| == |list|
      invariant forall k :: 0 <= k < i ==> r[k] == InheritFrom(s, list[k])
      invariant forall k :: i <= k < |r| ==> r[k] == list[k]
    {
      var tc := r[i];
      if IsParentOf(s.id, tc.id) {
        r := r[i := tc.(argList := s.argList + tc.argList)];
      }
      i := i + 1;
    }
  }

  /** Inheriting arguments keeps ids, so a template is found at the same index. */
  lemma FindTemplateInherited(list: seq<TemplateObject>, s: TemplateObject, id: NamespacedId)
    ensures FindTemplate(InheritAll(s, list), id) == FindTemplate(list, id)
  {
    var inherited := InheritAll(s, list);
    match FindTemplate(list, id)
    case Some(j) =>
      FindTemplateAt(inherited, id, j);
    case None =>
      assert forall k :: 0 <= k < |inherited| ==> inherited[k].id != id;
  }

  /** The cursor after registerComplexTypeOrReturnExisting(): a new type
      registered while there is no cursor pushes the root first. */
  function CursorAfterRegister(s: Cursor, types: seq<ComplexType>, ptr: Option<ComplexType>,
                               matches: (ComplexType, ComplexType) -> bool, mode: bool): (r: Cursor)
    requires CursorValid(s)
    ensures CursorValid(r)
    ensures r != s ==> s.current.None? && r.current == Some(0) && r.reg == [RootNamespace]
    ensures s.current.None? && RegisterType(types, ptr, matches).types != types ==>
      r == Cursor([RootNamespace], Some(0), s.parent)
    ensures s.current.Some? || RegisterType(types, ptr, matches).types == types ==> r == s
  {
    if ptr.Some? && FirstMatch(types, ptr.value, matches).None? && s.current.None? then PushName(s, mode, "") else s
  }

  /** What a type-producing operation hands back: nothing, an entry of the
      struct type list, or a type that was not registered. */
  datatype TypeHandle = NullType | Registered(index: nat) | Detached(ctype: ComplexType)

  /** The handle a registration hands back. */
  function HandleOf(entry: Option<nat>): (h: TypeHandle)
  {
    if entry.Some? then Registered(entry.value) else NullType
  }

  /** The handle of a type that is handed back without registering it. */
  function Detach(ptr: Option<ComplexType>): (h: TypeHandle)
  {
    if ptr.Some? then Detached(ptr.value) else NullType
  }

  // ---------------------------------------------------------------------
  // The handler

  class NamespaceHandler {
    /** All namespaces, root first; links are indices into this list. */
    var existing: seq<Namespace>
    /** The namespace new symbols go to, and the separately kept parent cursor. */
    var current: Option<nat>
    var currentParent: Option<nat>
    /** Whether new namespaces and symbols are tagged internal. */
    var internalSymbolMode: bool
    var complexTypes: seq<ComplexType>
    var templateClasses: seq<TemplateObject>
    var templateFunctions: seq<TemplateObject>

    /** Structural equality of struct types. */
    const matchesOtherType: (ComplexType, ComplexType) -> bool
    /** Numeric conversion of a constant to another type. */
    const coerce: (TypeId, VariableStorage) -> VariableStorage
    /** A template class's construction callback: given the id, the parameters
        and the incoming result, the type it builds and the result it leaves. */
    const makeClassType: (NamespacedId, seq<TemplateParameter>, Status) -> (Option<ComplexType>, Status)
    /** A template function's construction callback, with the result it leaves. */
    const makeFunction: (NamespacedId, seq<TemplateParameter>, Status) -> Status

    /** The registry and both cursors as one value. */
    function State(): Cursor
      reads this
    {
      Cursor(existing, current, currentParent)
    }

    ghost predicate Valid()
      reads this
    {
      CursorValid(State()) && NoLaterMatch(complexTypes, matchesOtherType)
    }

    /** The type a template class instantiation builds, and the result it
        leaves: a deferred type when a parameter is still open, otherwise
        whatever the class's callback builds. */
    function Build(c: TemplateObject, tp: seq<TemplateParameter>, r: Status): (b: (Option<ComplexType>, Status))
      reads this
    {
      if HasOpenParameter(tp) then (Some(ComplexType(c.id, tp, true)), r) else makeClassType(c.id, tp, r)
    }

    constructor(matches: (ComplexType, ComplexType) -> bool, convert: (TypeId, VariableStorage) -> VariableStorage,
                classMaker: (NamespacedId, seq<TemplateParameter>, Status) -> (Option<ComplexType>, Status),
                functionMaker: (NamespacedId, seq<TemplateParameter>, Status) -> Status)
      ensures Valid()
      ensures State() == Cursor([], None, None) && !internalSymbolMode
      ensures complexTypes == [] && templateClasses == [] && templateFunctions == []
      ensures matchesOtherType == matches && coerce == convert
      ensures makeClassType == classMaker && makeFunction == functionMaker
    {
      existing := [];
      current := None;
      currentParent := None;
      internalSymbolMode := false;
      complexTypes := [];
      templateClasses := [];
      templateFunctions := [];
      matchesOtherType := matches;
      coerce := convert;
      makeClassType := classMaker;
      makeFunction := functionMaker;
    }

    /** get() */
    method GetNamespace(id: NamespacedId) returns (r: Option<nat>)
      ensures r == Get(existing, id)
    {
      r := FindNamespace(existing, id);
    }

    /** pushNamespace(Identifier) */
    method PushNamespaceName(name: Identifier)
      requires Valid()
      modifies this
      ensures Valid()
      ensures State() == PushName(old(State()), internalSymbolMode, name)
      ensures internalSymbolMode == old(internalSymbolMode) && complexTypes == old(complexTypes)
      ensures templateClasses == old(templateClasses) && templateFunctions == old(templateFunctions)
    {
      ghost var s := State();
      if current.None? {
        existing := [RootNamespace];
        current := Some(0);
        assert State() == PushName(s, internalSymbolMode, name);
      } else if name == "" {
        current := Some(0);
        assert State() == PushName(s, internalSymbolMode, name);
      } else {
        var c := current.value;
        var found := FindNamespace(existing, ChildId(existing[c].id, name));
        currentParent := current;
        if found.Some? {
          current := found;
          assert PushName(s, internalSymbolMode, name) == Cursor(s.reg, found, Some(c));
        } else {
          assert Get(s.reg, ChildId(s.reg[c].id, name)).None?;
          existing := AddChild(existing, c, name, internalSymbolMode);
          current := Some(|existing| - 1);
          assert existing == AddChild(s.reg, c, name, internalSymbolMode);
          assert PushName(s, internalSymbolMode, name) == Cursor(existing, current, Some(c));
        }
      }
    }

    /** pushNamespace(NamespacedIdentifier) */
    method PushNamespace(id: NamespacedId)
      requires Valid()
      requires |existing| > 0 || IsExplicit(id)
      modifies this
      decreases |id.path|
      ensures Valid()
      ensures State() == PushId(old(State()), internalSymbolMode, id)
      ensures internalSymbolMode == old(internalSymbolMode) && complexTypes == old(complexTypes)
      ensures templateClasses == old(templateClasses) && templateFunctions == old(templateFunctions)
    {
      var found := FindNamespace(existing, id);
      if found.Some? {
        current := found;
        currentParent := existing[found.value].parent;
      } else if IsExplicit(id) {
        PushNamespaceName(Name(id));
      } else {
        RootIsFound(existing);
        assert id != RootId;
        PushNamespace(Parent(id));
        PushNamespaceName(Name(id));
      }
    }

    /** popNamespace() */
    method PopNamespace() returns (r: Status)
      requires Valid()
      modifies this
      ensures Valid()
      ensures (r, State()) == Pop(old(State()))
      ensures internalSymbolMode == old(internalSymbolMode) && complexTypes == old(complexTypes)
      ensures templateClasses == old(templateClasses) && templateFunctions == old(templateFunctions)
    {
      if current == GetRoot(existing) {
        return Ok;
      }
      if currentParent.None? {
        return Fail("Can't pop namespace");
      }
      current := existing[current.value].parent;
      return Ok;
    }

    /** addUsedNamespace() */
    method AddUsedNamespace(usedId: NamespacedId) returns (r: Status)
      requires Valid() && current.Some?
      modifies this
      ensures Valid()
      ensures (r, existing) == UseNamespace(old(existing), old(current).value, usedId)
      ensures current == old(current) && currentParent == old(currentParent)
      ensures internalSymbolMode == old(internalSymbolMode) && complexTypes == old(complexTypes)
      ensures templateClasses == old(templateClasses) && templateFunctions == old(templateFunctions)
    {
      var c := current.value;
      ghost var target := UseNamespace(existing, c, usedId);
      var found := FindNamespace(existing, usedId);
      if found.None? {
        r := Fail("Can't find namespace " + IdToString(usedId));
      } else {
        existing := Replace(existing, c, existing[c].(used := existing[c].used + [found.value]));
        r := Ok;
      }
      assert (r, existing) == target;
    }

    /** resolve() */
    method ResolveId(id: NamespacedId, allowZeroMatch: bool) returns (r: Status, resolved: NamespacedId)
      requires Valid()
      ensures Resolution(r, resolved) == Resolve(existing, current, id, allowZeroMatch)
    {
      r, resolved := ResolveIn(existing, current, id, allowZeroMatch);
    }

    /** addSymbol(), into the current namespace */
    method AddSymbol(id: NamespacedId, t: TypeInfo, kind: SymbolType)
      requires Valid() && current.Some? && Parent(id) == existing[current.value].id
      modifies this
      ensures Valid()
      ensures existing == AddSymbolAt(old(existing), old(current).value, id, t, kind, internalSymbolMode)
      ensures current == old(current) && currentParent == old(currentParent)
      ensures internalSymbolMode == old(internalSymbolMode) && complexTypes == old(complexTypes)
      ensures templateClasses == old(templateClasses) && templateFunctions == old(templateFunctions)
    {
      existing := AddSymbolAt(existing, current.value, id, t, kind, internalSymbolMode);
    }

    /** addConstant(), into the current namespace */
    method AddConstant(id: NamespacedId, v: VariableStorage) returns (r: Status)
      requires Valid() && current.Some?
      modifies this
      ensures Valid()
      ensures (r, existing) == SetConstantAt(old(existing), old(current).value, id, v, coerce)
      ensures current == old(current) && currentParent == old(currentParent)
      ensures internalSymbolMode == old(internalSymbolMode) && complexTypes == old(complexTypes)
      ensures templateClasses == old(templateClasses) && templateFunctions == old(templateFunctions)
    {
      var c := current.value;
      ghost var target := SetConstantAt(existing, c, id, v, coerce);
      var i := FindAliasIndex(existing[c].aliases, id);
      if i.None? {
        r := Fail("fail");
      } else {
        var a := existing[c].aliases[i.value];
        var value := if TypeIdOf(a.typeInfo) == v.typeId then v else coerce(TypeIdOf(a.typeInfo), v);
        existing := Replace(existing, c, ReplaceAlias(existing[c], i.value, a.(constantValue := value)));
        r := Ok;
      }
      assert (r, existing) == target;
    }

    /** setTypeInfo() */
    method SetTypeInfo(id: NamespacedId, expected: SymbolType, t: TypeInfo) returns (r: Status)
      requires Valid()
      modifies this
      ensures Valid()
      ensures (r, existing) == SetTypeAt(old(existing), id, expected, t)
      ensures current == old(current) && currentParent == old(currentParent)
      ensures internalSymbolMode == old(internalSymbolMode) && complexTypes == old(complexTypes)
      ensures templateClasses == old(templateClasses) && templateFunctions == old(templateFunctions)
    {
      ghost var target := SetTypeAt(existing, id, expected, t);
      var p := FindNamespace(existing, Parent(id));
      if p.None? {
        r := Fail("Can't find namespace");
      } else {
        var i := FindAliasIndex(existing[p.value].aliases, id);
        if i.None? {
          r := Fail("Can't find symbol");
        } else {
          var a := existing[p.value].aliases[i.value];
          if a.symbolType != expected {
            r := Fail("Symbol type mismatch");
          } else {
            existing := Replace(existing, p.value, ReplaceAlias(existing[p.value], i.value, a.(typeInfo := t)));
            r := Ok;
          }
        }
      }
      assert (r, existing) == target;
    }

    /** changeSymbolType(): the id is resolved first, then its alias changed. */
    method ChangeSymbolType(id: NamespacedId, kind: SymbolType) returns (changed: bool)
      requires Valid()
      modifies this
      ensures Valid()
      ensures (changed, existing) == SetKindAt(old(existing), Resolve(old(existing), old(current), id, false).id, kind)
      ensures current == old(current) && currentParent == old(currentParent)
      ensures internalSymbolMode == old(internalSymbolMode) && complexTypes == old(complexTypes)
      ensures templateClasses == old(templateClasses) && templateFunctions == old(templateFunctions)
    {
      var _, target := ResolveIn(existing, current, id, false);
      ghost var spec := SetKindAt(existing, target, kind);
      var p := FindNamespace(existing, Parent(target));
      if p.None? {
        changed := false;
      } else {
        var i := FindAliasIndex(existing[p.value].aliases, target);
        if i.None? {
          changed := false;
        } else {
          var a := existing[p.value].aliases[i.value];
          existing := Replace(existing, p.value, ReplaceAlias(existing[p.value], i.value, a.(symbolType := kind)));
          changed := true;
        }
      }
      assert (changed, existing) == spec;
    }

    /** registerComplexTypeOrReturnExisting() */
    method RegisterComplexType(ptr: Option<ComplexType>) returns (entry: Option<nat>)
      requires Valid()
      modifies this
      ensures Valid()
      ensures Registration(complexTypes, entry) == RegisterType(old(complexTypes), ptr, matchesOtherType)
      ensures State() == CursorAfterRegister(old(State()), old(complexTypes), ptr, matchesOtherType, internalSymbolMode)
      ensures internalSymbolMode == old(internalSymbolMode)
      ensures templateClasses == old(templateClasses) && templateFunctions == old(templateFunctions)
    {
      if ptr.None? {
        return None;
      }
      var found := FirstMatchIndex(complexTypes, ptr.value, matchesOtherType);
      if found.Some? {
        return found;
      }
      if current.None? {
        PushNamespaceName("");
      }
      RegisterTypeKeepsOnePerMatch(complexTypes, ptr, matchesOtherType);
      complexTypes := complexTypes + [ptr.value];
      return Some(|complexTypes| - 1);
    }

    /** createTemplateInstantiation(): a class template with the id builds the
        type, which is registered when the result is still Ok. */
    method CreateTemplateInstantiation(id: NamespacedId, tp: seq<TemplateParameter>, r: Status)
      returns (handle: TypeHandle, result: Status)
      requires Valid()
      modifies this
      ensures Valid()
      ensures FindTemplate(templateClasses, id).None? ==>
        handle == NullType && result == Fail("Can't find template class")
        && State() == old(State()) && complexTypes == old(complexTypes)
      ensures FindTemplate(templateClasses, id).Some? ==>
        var built := Build(templateClasses[FindTemplate(templateClasses, id).value], tp, r);
        var registration := RegisterType(old(complexTypes), built.0, matchesOtherType);
        && (!built.1.Ok? ==>
              handle == Detach(built.0) && result == built.1
              && State() == old(State()) && complexTypes == old(complexTypes))
        && (built.1.Ok? ==>
              handle == HandleOf(registration.entry) && result == Ok
              && complexTypes == registration.types
              && State() == CursorAfterRegister(old(State()), old(complexTypes), built.0, matchesOtherType, internalSymbolMode))
      ensures internalSymbolMode == old(internalSymbolMode)
      ensures templateClasses == old(templateClasses) && templateFunctions == old(templateFunctions)
    {
      var deferred := AnyOpenParameter(tp);
      var i := FindTemplateIndex(templateClasses, id);
      if i.None? {
        return NullType, Fail("Can't find template class");
      }
      var c := templateClasses[i.value];
      var ptr: Option<ComplexType>;
      result := r;
      if deferred {
        ptr := Some(ComplexType(c.id, tp, true));
      } else {
        ptr, result := makeClassType(c.id, tp, r).0, makeClassType(c.id, tp, r).1;
      }
      if !result.Ok? {
        return Detach(ptr), result;
      }
      var entry := RegisterComplexType(ptr);
      return HandleOf(entry), Ok;
    }

    /** createTemplateFunction(): a function template with the id builds the
        function through its callback. */
    method CreateTemplateFunction(id: NamespacedId, tp: seq<TemplateParameter>, r: Status) returns (result: Status)
      ensures FindTemplate(templateFunctions, id).Some? ==> result == makeFunction(id, tp, r)
      ensures FindTemplate(templateFunctions, id).None? ==>
        result == Fail("Can't instantiate function template " + IdToString(id))
    {
      var i := FindTemplateIndex(templateFunctions, id);
      if i.Some? {
        return makeFunction(id, tp, r);
      }
      return Fail("Can't instantiate function template " + IdToString(id));
    }

    /** addTemplateClass() */
    method AddTemplateClass(s: TemplateObject)
      requires Valid()
      modifies this
      ensures Valid()
      ensures templateClasses == RegisterTemplateClass(old(templateClasses), s)
      ensures State() == AddTemplateAlias(old(State()), internalSymbolMode, s.id, TemplatedClass)
      ensures internalSymbolMode == old(internalSymbolMode) && complexTypes == old(complexTypes)
      ensures templateFunctions == old(templateFunctions)
    {
      ghost var list := templateClasses;
      templateClasses := InheritArguments(templateClasses, s);
      AddTemplateAliasHere(s.id, TemplatedClass);
      var known := FindTemplateIndex(templateClasses, s.id);
      FindTemplateInherited(list, s, s.id);
      if known.None? {
        templateClasses := templateClasses + [s];
      }
    }

    /** addTemplateFunction() */
    method AddTemplateFunction(f: TemplateObject)
      requires Valid()
      modifies this
      ensures Valid()
      ensures templateFunctions == RegisterTemplateFunction(old(templateFunctions), f)
      ensures State() == AddTemplateAlias(old(State()), internalSymbolMode, f.id, TemplatedFunction)
      ensures internalSymbolMode == old(internalSymbolMode) && complexTypes == old(complexTypes)
      ensures templateClasses == old(templateClasses)
    {
      AddTemplateAliasHere(f.id, TemplatedFunction);
      var known := FindTemplateIndex(templateFunctions, f.id);
      if known.None? {
        templateFunctions := templateFunctions + [f];
      }
    }

    /** The part addTemplateClass() and addTemplateFunction() share: the root
        is pushed when there is no cursor, then the alias is added to the
        namespace named by the id's parent. */
    method AddTemplateAliasHere(id: NamespacedId, kind: SymbolType)
      requires Valid()
      modifies this
      ensures Valid()
      ensures State() == AddTemplateAlias(old(State()), internalSymbolMode, id, kind)
      ensures internalSymbolMode == old(internalSymbolMode) && complexTypes == old(complexTypes)
      ensures templateClasses == old(templateClasses) && templateFunctions == old(templateFunctions)
    {
      ghost var s := State();
      if current.None? {
        PushNamespaceName("");
      }
      ghost var s1 := State();
      ghost var target := AppendAlias(existing, id, kind, internalSymbolMode);
      var p := FindNamespace(existing, Parent(id));
      if p.Some? {
        var ns := existing[p.value];
        existing := Replace(existing, p.value,
          ns.(aliases := ns.aliases + [Alias(id, DefaultTypeInfo, kind, EmptyValue, internalSymbolMode)]));
      }
      assert existing == target;
      assert State() == s1.(reg := target);
    }
  }
}
