/**
 * The decoded protocol description: versions, domains, commands, events and the one
 * polymorphic shape descriptor, with its classification and package placement.
 */
module Schema {
  import opened Results
  import opened Text

  /** The seven kinds a shape can have, in declaration order. */
  datatype Kind = String | Object | Boolean | Any | Array | Number | Integer

  /** The constant name of a kind (Enum.name()). */
  function KindName(k: Kind): string {
    match k
    case String => "STRING"
    case Object => "OBJECT"
    case Boolean => "BOOLEAN"
    case Any => "ANY"
    case Array => "ARRAY"
    case Number => "NUMBER"
    case Integer => "INTEGER"
  }

  /** The kinds in the order values() returns them. */
  const Kinds: seq<Kind> := [String, Object, Boolean, Any, Array, Number, Integer]

  /** No two kind names are equal ignoring case, so at most one kind matches a decoded value. */
  lemma KindNamesDistinct(k1: Kind, k2: Kind, value: string)
    requires EqualsIgnoreCase(KindName(k1), value) && EqualsIgnoreCase(KindName(k2), value)
    ensures k1 == k2
  {
    var n1, n2 := KindName(k1), KindName(k2);
    assert |n1| == |n2|;
    assert LowerChar(n1[0]) == LowerChar(n2[0]);
    assert LowerChar(n1[1]) == LowerChar(n2[1]);
  }

  /**
   * TypeType.find: the first kind, in declaration order, whose name equals the decoded
   * value ignoring case; None when there is none.
   */
  method Find(value: string) returns (r: Option<Kind>)
    ensures r.Some? ==> EqualsIgnoreCase(KindName(r.value), value)
    ensures r.None? ==> forall k: Kind :: !EqualsIgnoreCase(KindName(k), value)
  {
    var i := 0;
    while i < |Kinds|
      invariant 0 <= i <= |Kinds|
      invariant forall j :: 0 <= j < i ==> !EqualsIgnoreCase(KindName(Kinds[j]), value)
    {
      if EqualsIgnoreCase(KindName(Kinds[i]), value) {
        return Some(Kinds[i]);
      }
      i := i + 1;
    }
    forall k: Kind ensures !EqualsIgnoreCase(KindName(k), value) {
      assert k == Kinds[match k
        case String => 0 case Object => 1 case Boolean => 2 case Any => 3
        case Array => 4 case Number => 5 case Integer => 6];
    }
    return None;
  }

  /**
   * The shape descriptor of a declared type, a property, a parameter or array items.
   * Absent strings are "", absent lists are empty; `kind` is None when the decoded kind
   * matched no Kind. The owning domain is not a field: the registry and the emitters carry it.
   */
  datatype TypeSpec = TypeSpec(
    id: string,
    name: Option<string>,
    kind: Option<Kind>,
    optional: bool,
    ref: string,
    enums: seq<string>,
    items: Option<TypeSpec>,
    properties: seq<TypeSpec>)

  datatype Command = Command(name: string, parameters: seq<TypeSpec>, returnValues: seq<TypeSpec>)

  datatype Event = Event(name: string, parameters: seq<TypeSpec>)

  datatype Domain = Domain(name: string, types: seq<TypeSpec>, commands: seq<Command>, events: seq<Event>)

  datatype Version = Version(major: Option<string>, minor: Option<string>)

  datatype Document = Document(version: Version, domains: seq<Domain>)

  /** Version.equals: both parts equal, absent parts equal only to absent parts. */
  predicate VersionEquals(a: Version, b: Version) {
    a.major == b.major && a.minor == b.minor
  }

  lemma VersionEqualsIsStructural(a: Version, b: Version)
    ensures VersionEquals(a, b) <==> a == b
  {
  }

  /** Type.isEnum: a STRING with enum values. */
  predicate IsEnum(t: TypeSpec) {
    t.kind == Some(String) && |t.enums| > 0
  }

  /** Type.isObject: an OBJECT with properties. */
  predicate IsObject(t: TypeSpec) {
    t.kind == Some(Object) && |t.properties| > 0
  }

  /** Type.getPackage for a shape owned by `domain`, under the root package `pkg`. */
  function Package(pkg: string, t: TypeSpec, domain: string): string {
    pkg + "." + (if IsEnum(t) then "constant" else "entity") + "." + Lower(domain)
  }

  /** Type.getPackage() + "." + id: the qualified name of a named declaration. */
  function Qualified(pkg: string, t: TypeSpec, domain: string): string {
    Package(pkg, t, domain) + "." + t.id
  }

  /**
   * Within one domain, two shapes share a package exactly when both or neither are
   * enum-shaped: enums go to the constant package, everything else to the entity package.
   */
  lemma PackageSeparatesEnums(pkg: string, t1: TypeSpec, t2: TypeSpec, domain: string)
    ensures Package(pkg, t1, domain) == Package(pkg, t2, domain) <==> IsEnum(t1) == IsEnum(t2)
  {
    var p1, p2 := Package(pkg, t1, domain), Package(pkg, t2, domain);
    if IsEnum(t1) != IsEnum(t2) {
      var k := |pkg| + 1;
      assert p1[k] != p2[k];
    }
  }

  /** The domain segment of a package is in lower case, whatever the domain's spelling. */
  lemma PackageDomainSegment(pkg: string, t: TypeSpec, domain: string)
    ensures var p := Package(pkg, t, domain);
      |p| >= |domain| &&
      (forall i :: |p| - |domain| <= i < |p| ==> !IsUpperLetter(p[i])) &&
      EqualsIgnoreCase(p[|p| - |domain|..], domain)
  {
    var p := Package(pkg, t, domain);
    assert p[|p| - |domain|..] == Lower(domain);
  }
}
