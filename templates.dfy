/** Template definitions and struct types as values: the registry of
    template classes and functions, the argument inheritance between nested
    template classes, and the registry of struct types that keeps one entry
    per structurally equal type. The handler class in module Handler owns
    lists of these shapes. */
module Templates {
  import opened Common
  import opened Namespaces

  /** One template parameter: the argument it stands for, its type (possibly
      a still-open template type) and a constant for value parameters. */
  datatype TemplateParameter = TemplateParameter(argumentId: NamespacedId, typeInfo: TypeInfo, constant: int)

  /** The type is a template type that is not yet concrete. */
  predicate IsTemplateType(t: TypeInfo)
  {
    t.kind.TemplateTypeArg?
  }

  /** A template class or function definition: its id and declared argument
      list. Its construction callback is held by the handler. */
  datatype TemplateObject = TemplateObject(id: NamespacedId, argList: seq<TemplateParameter>)

  /** A struct type: its id, its template parameters, and whether it is a
      deferred instantiation whose parameters are still open. */
  datatype ComplexType = ComplexType(id: NamespacedId, parameters: seq<TemplateParameter>, deferred: bool)

  // ---------------------------------------------------------------------
  // Template lists

  /** The index of the first template with this id. */
  function FindTemplate(list: seq<TemplateObject>, id: NamespacedId): (r: Option<nat>)
    ensures r.Some? ==> r.value < |list| && list[r.value].id == id
    ensures r.Some? ==> forall k :: 0 <= k < r.value ==> list[k].id != id
    ensures r.None? ==> forall k :: 0 <= k < |list| ==> list[k].id != id
  {
    if |list| == 0 then None
    else
      var earlier := FindTemplate(list[..|list| - 1], id);
      if earlier.Some? then earlier
      else if list[|list| - 1].id == id then Some(|list| - 1)
      else None
  }

  /** One registered template after s is added: s's arguments come first
      when s encloses it. */
  function InheritFrom(s: TemplateObject, t: TemplateObject): (r: TemplateObject)
    ensures r.id == t.id
  {
    if IsParentOf(s.id, t.id) then t.(argList := s.argList + t.argList) else t
  }

  /** Every registered template after s is added. */
  function InheritAll(s: TemplateObject, list: seq<TemplateObject>): (r: seq<TemplateObject>)
    ensures |r| == |list|
    ensures forall k :: 0 <= k < |list| ==> r[k] == InheritFrom(s, list[k])
    ensures forall k :: 0 <= k < |list| ==> r[k].id == list[k].id
  {
    if list == [] then [] else InheritAll(s, list[..|list| - 1]) + [InheritFrom(s, list[|list| - 1])]
  }

  /** A template found at j with no earlier template of that id is what
      FindTemplate returns. */
  lemma FindTemplateAt(list: seq<TemplateObject>, id: NamespacedId, j: nat)
    requires j < |list| && list[j].id == id
    requires forall k :: 0 <= k < j ==> list[k].id != id
    ensures FindTemplate(list, id) == Some(j)
  {
    var f := FindTemplate(list, id);
    assert f.Some?;
    assert f.value <= j;
    assert f.value >= j;
  }

  /** addTemplateClass() on the class list: the arguments of s are put in
      front of those of every registered template s encloses, then s is
      appended unless a template with its id is already there. */
  function RegisterTemplateClass(list: seq<TemplateObject>, s: TemplateObject): (r: seq<TemplateObject>)
    ensures FindTemplate(r, s.id).Some?
    ensures FindTemplate(list, s.id).Some? ==> r == InheritAll(s, list)
    ensures FindTemplate(list, s.id).None? ==> r == InheritAll(s, list) + [s]
  {
    var inherited := InheritAll(s, list);
    assert forall k :: 0 <= k < |list| ==> inherited[k].id == list[k].id;
    if FindTemplate(list, s.id).Some? then
      var i := FindTemplate(list, s.id).value;
      assert inherited[i].id == s.id;
      inherited
    else
      assert (inherited + [s])[|list|].id == s.id;
      inherited + [s]
  }

  /** addTemplateFunction() on the function list: s is appended unless a
      template with its id is already there. */
  function RegisterTemplateFunction(list: seq<TemplateObject>, f: TemplateObject): (r: seq<TemplateObject>)
    ensures FindTemplate(r, f.id).Some?
    ensures FindTemplate(list, f.id).Some? ==> r == list
    ensures FindTemplate(list, f.id).None? ==> r == list + [f]
  {
    if FindTemplate(list, f.id).Some? then list
    else
      assert (list + [f])[|list|].id == f.id;
      list + [f]
  }

  /** Registration keeps every registered template in place, with its id. */
  lemma RegisterTemplateClassKeepsOrder(list: seq<TemplateObject>, s: TemplateObject)
    ensures var r := RegisterTemplateClass(list, s);
      |list| <= |r| <= |list| + 1
      && (forall k :: 0 <= k < |list| ==> r[k] == InheritFrom(s, list[k]))
      && (forall k :: 0 <= k < |list| ==> r[k].id == list[k].id)
      && (FindTemplate(list, s.id).None? ==> |r| == |list| + 1 && r[|list|] == s)
  {
  }

  /** Registering an enclosing template after a nested one puts the outer
      arguments in front of the nested template's own. */
  lemma OuterArgumentsPrecedeNested(list: seq<TemplateObject>, inner: TemplateObject, outer: TemplateObject)
    requires IsParentOf(outer.id, inner.id)
    requires FindTemplate(list, inner.id).None?
    ensures var after := RegisterTemplateClass(RegisterTemplateClass(list, inner), outer);
      FindTemplate(after, inner.id) == Some(|list|)
      && after[|list|].argList == outer.argList + inner.argList
  {
    var once := RegisterTemplateClass(list, inner);
    RegisterTemplateClassKeepsOrder(list, inner);
    var after := RegisterTemplateClass(once, outer);
    RegisterTemplateClassKeepsOrder(once, outer);
    assert after[|list|] == InheritFrom(outer, inner);
    FindTemplateAt(after, inner.id, |list|);
  }

  /** Registering a nested template after its enclosing one leaves the nested
      template's own argument list as it was declared. */
  lemma NestedAfterOuterKeepsOwnArguments(list: seq<TemplateObject>, outer: TemplateObject, inner: TemplateObject)
    requires IsParentOf(outer.id, inner.id)
    requires FindTemplate(list, outer.id).None? && FindTemplate(list, inner.id).None?
    ensures var after := RegisterTemplateClass(RegisterTemplateClass(list, outer), inner);
      |after| == |list| + 2 && after[|list| + 1] == inner && FindTemplate(after, inner.id) == Some(|list| + 1)
  {
    var once := RegisterTemplateClass(list, outer);
    RegisterTemplateClassKeepsOrder(list, outer);
    assert |once| == |list| + 1 && once[|list|] == outer;
    assert outer.id != inner.id by { assert |outer.id.path| < |inner.id.path|; }
    assert forall k :: 0 <= k < |list| ==> once[k].id != inner.id;
    var after := RegisterTemplateClass(once, inner);
    RegisterTemplateClassKeepsOrder(once, inner);
    assert |after| == |list| + 2 && after[|list| + 1] == inner;
    FindTemplateAt(after, inner.id, |list| + 1);
  }

  /** getTemplateObject(): the first class template with the id, else the
      first function template with it. */
  function GetTemplateObject(classes: seq<TemplateObject>, functions: seq<TemplateObject>, id: NamespacedId): (r: Option<TemplateObject>)
    ensures r.Some? ==> r.value.id == id && (r.value in classes || r.value in functions)
    ensures r.None? ==> forall t :: t in classes + functions ==> t.id != id
    ensures FindTemplate(classes, id).Some? ==> r == Some(classes[FindTemplate(classes, id).value])
    ensures (forall t :: t in classes ==> t.id != id) && FindTemplate(functions, id).Some? ==>
      r == Some(functions[FindTemplate(functions, id).value])
  {
    match FindTemplate(classes, id)
    case Some(i) => Some(classes[i])
    case None =>
      match FindTemplate(functions, id)
      case Some(i) => Some(functions[i])
      case None => None
  }

  // ---------------------------------------------------------------------
  // Struct types, one entry per structural match

  /** No registered type matches a type registered after it. */
  ghost predicate NoLaterMatch(types: seq<ComplexType>, matches: (ComplexType, ComplexType) -> bool)
  {
    forall i, j :: 0 <= i < j < |types| ==> !matches(types[i], types[j])
  }

  /** The index of the first registered type that matches t. */
  function FirstMatch(types: seq<ComplexType>, t: ComplexType, matches: (ComplexType, ComplexType) -> bool): (r: Option<nat>)
    ensures r.Some? ==> r.value < |types| && matches(types[r.value], t)
    ensures r.Some? ==> forall k :: 0 <= k < r.value ==> !matches(types[k], t)
    ensures r.None? ==> forall k :: 0 <= k < |types| ==> !matches(types[k], t)
  {
    if |types| == 0 then None
    else
      var earlier := FirstMatch(types[..|types| - 1], t, matches);
      if earlier.Some? then earlier
      else if matches(types[|types| - 1], t) then Some(|types| - 1)
      else None
  }

  /** The registry after registering a type, and the entry that stands for it
      (None for a null type). */
  datatype Registration = Registration(types: seq<ComplexType>, entry: Option<nat>)

  /** registerComplexTypeOrReturnExisting() on the type list. */
  function RegisterType(types: seq<ComplexType>, t: Option<ComplexType>, matches: (ComplexType, ComplexType) -> bool): (r: Registration)
    ensures t.None? <==> r.entry.None?
    ensures r.types == types || (t.Some? && r.types == types + [t.value])
    ensures r.entry.Some? ==> r.entry.value < |r.types|
    ensures r.entry.Some? ==> r.types[r.entry.value] == t.value || matches(r.types[r.entry.value], t.value)
    ensures r.entry.Some? && r.types == types ==>
      matches(types[r.entry.value], t.value) && forall k :: 0 <= k < r.entry.value ==> !matches(types[k], t.value)
    ensures r.types != types <==> t.Some? && forall k :: 0 <= k < |types| ==> !matches(types[k], t.value)
    ensures r.types != types ==> r.entry == Some(|types|)
  {
    match t
    case None => Registration(types, None)
    case Some(c) =>
      match FirstMatch(types, c, matches)
      case Some(i) => Registration(types, Some(i))
      case None => Registration(types + [c], Some(|types|))
  }

  /** Registration never adds a type that an earlier entry matches. */
  lemma RegisterTypeKeepsOnePerMatch(types: seq<ComplexType>, t: Option<ComplexType>, matches: (ComplexType, ComplexType) -> bool)
    requires NoLaterMatch(types, matches)
    ensures NoLaterMatch(RegisterType(types, t, matches).types, matches)
  {
    var r := RegisterType(types, t, matches);
    if r.types != types {
      forall i, j | 0 <= i < j < |r.types| ensures !matches(r.types[i], r.types[j]) {
        if j == |types| {
          assert r.types[j] == t.value;
        } else {
          assert r.types[i] == types[i] && r.types[j] == types[j];
        }
      }
    }
  }

  /** With a reflexive match, registering a structurally equal type again
      returns the same entry and adds nothing. */
  lemma RegisterTypeTwiceSameEntry(types: seq<ComplexType>, t: ComplexType, t2: ComplexType, matches: (ComplexType, ComplexType) -> bool)
    requires forall x :: matches(x, x)
    requires forall x :: matches(x, t) <==> matches(x, t2)
    ensures var first := RegisterType(types, Some(t), matches);
      RegisterType(first.types, Some(t2), matches) == first
  {
    var first := RegisterType(types, Some(t), matches);
    var second := FirstMatch(first.types, t2, matches);
    if FirstMatch(types, t, matches).None? {
      assert matches(first.types[|types|], t);
      assert second.Some?;
      assert forall k :: 0 <= k < |types| ==> first.types[k] == types[k];
      assert second.value == |types|;
    } else {
      var i := FirstMatch(types, t, matches).value;
      assert second.Some?;
      assert second.value <= i;
      assert second.value >= i;
    }
  }
}
