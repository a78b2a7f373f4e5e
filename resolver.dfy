/**
 * getType: the Java type name of a property, parameter or items shape. It follows "$ref"s
 * through the registry, wraps array items in java.util.List, maps the primitive kinds,
 * and names an anonymous inline enum after its parent, handing that synthesized enum back
 * to be emitted (the source emits it through createType on the spot; nothing fails after).
 */
module Resolver {
  import opened Results
  import opened Text
  import opened Schema
  import opened Registry

  /** A resolved type name and the inline enum whose declaration the resolution emits, if any. */
  datatype Resolution = Resolution(name: string, pending: Option<TypeSpec>)

  const MapType := "java.util.Map<String, Object>"
  const ListPrefix := "java.util.List<"

  /** StringUtils.capitalize of a possibly absent property name, as string concatenation prints it. */
  function CapitalizeName(name: Option<string>): string {
    match name
    case None => "null"
    case Some(n) => Capitalize(n)
  }

  /** The enum synthesized for an anonymous inline enum `prop` under a parent named `parentId`. */
  function SynthesizedEnum(parentId: string, prop: TypeSpec): (s: TypeSpec)
    requires parentId != [] && |prop.enums| > 0
    ensures IsEnum(s) && s.ref == [] && s.name.None? && s.enums == prop.enums
    ensures |s.id| >= |parentId| > 0 && s.id[..|parentId|] == Capitalize(parentId)
  {
    TypeSpec(Capitalize(parentId) + CapitalizeName(prop.name), None, Some(String), false, [], prop.enums, None, [])
  }

  /** Following a reference not followed yet leaves fewer keys to follow. */
  lemma FollowShrinks(keys: set<string>, visited: set<string>, key: string)
    requires key in keys && key !in visited
    ensures |keys - (visited + {key})| < |keys - visited|
  {
    var left := keys - visited;
    assert keys - (visited + {key}) == left - {key};
  }

  /** java.util.List< ... > wrapped n times around t. */
  function ListOf(n: nat, t: string): string {
    if n == 0 then t else ListPrefix + ListOf(n - 1, t) + ">"
  }

  /**
   * The resolution of `spec` met in `domain`. `owner` is the domain that owns `spec` itself
   * (set only for registry entries), `parentId` is the id of the shape it was met in, and
   * `visited` holds the registry keys already followed on this chain of references.
   */
  function Resolve(reg: map<string, Declared>, pkg: string, domain: string, spec: TypeSpec,
                   owner: Option<string>, parentId: string, visited: set<string>): (r: Result<Resolution>)
    ensures r.Ok? ==> r.value.name != []
    ensures r.Ok? && r.value.pending.Some? ==>
      var s := r.value.pending.value; IsEnum(s) && s.ref == [] && s.name.None? && |s.id| > 0
    decreases |reg.Keys - visited|, spec
  {
    if spec.ref != [] then
      match RefKey(domain, spec.ref)
      case None => Err(MalformedReference)
      case Some(key) =>
        if key !in reg then Err(UnresolvedReference)
        else if key in visited then Err(CyclicReference)
        else
          FollowShrinks(reg.Keys, visited, key);
          Resolve(reg, pkg, domain, reg[key].spec, Some(reg[key].domain), spec.id, visited + {key})
    else
      match spec.kind
      case None => Err(UnknownKind)
      case Some(Object) =>
        if spec.id != [] && |spec.properties| > 0 then
          if owner.None? then Err(MissingDomain)
          else Ok(Resolution(Qualified(pkg, spec, owner.value), None))
        else Ok(Resolution(MapType, None))
      case Some(Array) =>
        if spec.items.None? then Err(MissingItems)
        else
          var inner := Resolve(reg, pkg, domain, spec.items.value, None, spec.id, visited);
          if inner.Err? then Err(inner.error)
          else Ok(Resolution(ListPrefix + inner.value.name + ">", inner.value.pending))
      case Some(String) =>
        if |spec.enums| > 0 then
          if spec.id == [] then
            if parentId == [] then Err(MissingNamingContext)
            else
              var s := SynthesizedEnum(parentId, spec);
              Ok(Resolution(Qualified(pkg, s, domain), Some(s)))
          else if owner.None? then Err(MissingDomain)
          else Ok(Resolution(Qualified(pkg, spec, owner.value), None))
        else Ok(Resolution("String", None))
      case Some(Any) => Ok(Resolution("Object", None))
      case Some(Number) => Ok(Resolution("java.math.BigDecimal", None))
      case Some(Boolean) => Ok(Resolution("Boolean", None))
      case Some(Integer) => Ok(Resolution("Integer", None))
  }

  /** getType(domain, prop, parent) as called on a property: no owner, nothing followed yet. */
  function ResolveProperty(reg: map<string, Declared>, pkg: string, domain: string, prop: TypeSpec, parentId: string): Result<Resolution> {
    Resolve(reg, pkg, domain, prop, None, parentId, {})
  }

  /**
   * A reference is looked up under the key it names; an absent key fails, a present one is
   * resolved in its stead, owned by its declaring domain, with the referencing shape as parent.
   */
  lemma ResolveReference(reg: map<string, Declared>, pkg: string, domain: string, spec: TypeSpec,
                         owner: Option<string>, parentId: string, visited: set<string>, key: string)
    requires spec.ref != [] && RefKey(domain, spec.ref) == Some(key)
    ensures key !in reg ==> Resolve(reg, pkg, domain, spec, owner, parentId, visited) == Err(UnresolvedReference)
    ensures key in reg && key !in visited ==>
      Resolve(reg, pkg, domain, spec, owner, parentId, visited) ==
      Resolve(reg, pkg, domain, reg[key].spec, Some(reg[key].domain), spec.id, visited + {key})
  {
  }

  /**
   * Over the registry pass 1 builds from the merged domains, a reference "D.X" fails its
   * lookup exactly when no domain D declared a type X, whatever the order of the domains;
   * when one did, the declared type is resolved in the reference's stead.
   */
  lemma QualifiedReferenceFound(ds: seq<Domain>, pkg: string, domain: string, spec: TypeSpec,
                                parentId: string, d: string, x: string)
    requires spec.ref == d + "." + x && '.' !in d && '.' !in x && x != []
    ensures var reg := Register(map[], Declarations(ds));
      Key(d, x) in reg <==> exists i, t :: 0 <= i < |ds| && t in ds[i].types && Key(ds[i].name, t.id) == Key(d, x)
    ensures var reg := Register(map[], Declarations(ds));
      Key(d, x) !in reg ==> ResolveProperty(reg, pkg, domain, spec, parentId) == Err(UnresolvedReference)
    ensures var reg := Register(map[], Declarations(ds));
      Key(d, x) in reg ==>
        ResolveProperty(reg, pkg, domain, spec, parentId) ==
        Resolve(reg, pkg, domain, reg[Key(d, x)].spec, Some(reg[Key(d, x)].domain), spec.id, {Key(d, x)})
  {
    RefKeyQualified(domain, d, x);
    RegisteredIffDeclared(ds, Key(d, x));
    assert {} + {Key(d, x)} == {Key(d, x)};
  }

  /** A one-piece reference "X" is looked up in the domain being generated. */
  lemma BareReferenceLooksUpCurrentDomain(reg: map<string, Declared>, pkg: string, domain: string,
                                          spec: TypeSpec, parentId: string)
    requires spec.ref != [] && '.' !in spec.ref
    ensures Key(domain, spec.ref) !in reg ==> ResolveProperty(reg, pkg, domain, spec, parentId) == Err(UnresolvedReference)
    ensures Key(domain, spec.ref) in reg ==>
      ResolveProperty(reg, pkg, domain, spec, parentId) ==
      Resolve(reg, pkg, domain, reg[Key(domain, spec.ref)].spec, Some(reg[Key(domain, spec.ref)].domain), spec.id, {Key(domain, spec.ref)})
  {
    RefKeyBare(domain, spec.ref);
    assert {} + {Key(domain, spec.ref)} == {Key(domain, spec.ref)};
  }

  /** The primitive kinds and the unnamed object map to fixed Java types and emit nothing. */
  lemma ResolvePrimitives(reg: map<string, Declared>, pkg: string, domain: string, spec: TypeSpec,
                          owner: Option<string>, parentId: string, visited: set<string>)
    requires spec.ref == []
    ensures var r := Resolve(reg, pkg, domain, spec, owner, parentId, visited);
      && (spec.kind == Some(String) && spec.enums == [] ==> r == Ok(Resolution("String", None)))
      && (spec.kind == Some(Any) ==> r == Ok(Resolution("Object", None)))
      && (spec.kind == Some(Number) ==> r == Ok(Resolution("java.math.BigDecimal", None)))
      && (spec.kind == Some(Boolean) ==> r == Ok(Resolution("Boolean", None)))
      && (spec.kind == Some(Integer) ==> r == Ok(Resolution("Integer", None)))
      && (spec.kind == Some(Object) && (spec.id == [] || spec.properties == []) ==> r == Ok(Resolution(MapType, None)))
      && (spec.kind.None? ==> r == Err(UnknownKind))
  {
  }

  /** An array needs items; its type is the list of its items' type, resolved with the array as parent. */
  lemma ResolveArray(reg: map<string, Declared>, pkg: string, domain: string, spec: TypeSpec,
                     owner: Option<string>, parentId: string, visited: set<string>)
    requires spec.ref == [] && spec.kind == Some(Array)
    ensures var r := Resolve(reg, pkg, domain, spec, owner, parentId, visited);
      && (spec.items.None? ==> r == Err(MissingItems))
      && (spec.items.Some? ==>
            var inner := Resolve(reg, pkg, domain, spec.items.value, None, spec.id, visited);
            (inner.Err? ==> r == inner) &&
            (inner.Ok? ==> r.Ok? && r.value.name == ListOf(1, inner.value.name) && r.value.pending == inner.value.pending))
  {
  }

  /**
   * An anonymous inline enum fails without a parent id; otherwise it is named
   * Capitalize(parent id) + Capitalize(name), placed in the current domain's constant
   * package, and becomes the one declaration the resolution emits.
   */
  lemma ResolveInlineEnum(reg: map<string, Declared>, pkg: string, domain: string, spec: TypeSpec,
                          owner: Option<string>, parentId: string, visited: set<string>)
    requires spec.ref == [] && spec.kind == Some(String) && |spec.enums| > 0 && spec.id == []
    ensures var r := Resolve(reg, pkg, domain, spec, owner, parentId, visited);
      && (parentId == [] ==> r == Err(MissingNamingContext))
      && (parentId != [] ==>
            r.Ok? && r.value.pending == Some(SynthesizedEnum(parentId, spec)) &&
            SynthesizedEnum(parentId, spec).id == Capitalize(parentId) + CapitalizeName(spec.name) &&
            r.value.name == pkg + ".constant." + Lower(domain) + "." + SynthesizedEnum(parentId, spec).id)
  {
    if parentId != [] {
      var s := SynthesizedEnum(parentId, spec);
      assert Resolve(reg, pkg, domain, spec, owner, parentId, visited) == Ok(Resolution(Qualified(pkg, s, domain), Some(s)));
      assert Package(pkg, s, domain) == pkg + ".constant." + Lower(domain);
    }
  }

  /**
   * A named shape that is not an array (a declared enum or object reached through a
   * reference) resolves to its qualified name in its own domain and is never emitted here:
   * declared types are emitted only by the pass over each domain's types.
   */
  lemma ResolveNamedEmitsNothing(reg: map<string, Declared>, pkg: string, domain: string, spec: TypeSpec,
                                 owner: Option<string>, parentId: string, visited: set<string>)
    requires spec.ref == [] && spec.id != [] && (IsEnum(spec) || IsObject(spec))
    ensures var r := Resolve(reg, pkg, domain, spec, owner, parentId, visited);
      && (owner.None? ==> r == Err(MissingDomain))
      && (owner.Some? ==> r == Ok(Resolution(Qualified(pkg, spec, owner.value), None)))
  {
  }

  /**
   * Whatever chain of references and arrays leads to it, a synthesized enum lives in the
   * constant package of the domain being generated (not of the domain the chain passed
   * through), and the resolved name is that enum's name under as many List wrappers as arrays.
   */
  lemma {:induction false} PendingEnumPlacement(reg: map<string, Declared>, pkg: string, domain: string, spec: TypeSpec,
                                                owner: Option<string>, parentId: string, visited: set<string>)
    requires Resolve(reg, pkg, domain, spec, owner, parentId, visited).Ok?
    requires Resolve(reg, pkg, domain, spec, owner, parentId, visited).value.pending.Some?
    ensures var res := Resolve(reg, pkg, domain, spec, owner, parentId, visited).value;
      exists n: nat :: res.name == ListOf(n, Qualified(pkg, res.pending.value, domain))
    decreases |reg.Keys - visited|, spec
  {
    var res := Resolve(reg, pkg, domain, spec, owner, parentId, visited).value;
    if spec.ref != [] {
      var key := RefKey(domain, spec.ref).value;
      FollowShrinks(reg.Keys, visited, key);
      PendingEnumPlacement(reg, pkg, domain, reg[key].spec, Some(reg[key].domain), spec.id, visited + {key});
    } else if spec.kind == Some(Array) {
      var inner := Resolve(reg, pkg, domain, spec.items.value, None, spec.id, visited).value;
      PendingEnumPlacement(reg, pkg, domain, spec.items.value, None, spec.id, visited);
      var n: nat :| inner.name == ListOf(n, Qualified(pkg, inner.pending.value, domain));
      assert res.name == ListOf(n + 1, Qualified(pkg, res.pending.value, domain));
    } else {
      assert res.name == ListOf(0, Qualified(pkg, res.pending.value, domain));
    }
  }

  /**
   * An array property (a shape without an id) whose items are an anonymous inline enum
   * cannot be named: the items' parent is the array, and it has no id.
   */
  lemma ArrayOfInlineEnumProperty(reg: map<string, Declared>, pkg: string, domain: string, prop: TypeSpec, parentId: string)
    requires prop.ref == [] && prop.id == [] && prop.kind == Some(Array) && prop.items.Some?
    requires var it := prop.items.value; it.ref == [] && it.id == [] && it.kind == Some(String) && |it.enums| > 0
    ensures ResolveProperty(reg, pkg, domain, prop, parentId) == Err(MissingNamingContext)
  {
    assert Resolve(reg, pkg, domain, prop.items.value, None, prop.id, {}) == Err(MissingNamingContext);
  }
}
