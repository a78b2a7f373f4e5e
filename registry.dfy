/**
 * The type registry (typeMap): every declared type of every merged domain, keyed
 * domain + "." + id, filled before any declaration is emitted.
 */
module Registry {
  import opened Results
  import opened Text
  import opened Schema

  /** A registry entry: a declared type together with the domain that declared it. */
  datatype Declared = Declared(domain: string, spec: TypeSpec)

  function Key(domain: string, id: string): string {
    domain + "." + id
  }

  function KeyOf(x: Declared): string {
    Key(x.domain, x.spec.id)
  }

  /** The declared types of one domain, in declaration order. */
  function DomainDeclarations(d: Domain): (r: seq<Declared>)
    ensures |r| == |d.types|
    ensures forall j :: 0 <= j < |r| ==> r[j] == Declared(d.name, d.types[j])
  {
    seq(|d.types|, j requires 0 <= j < |d.types| => Declared(d.name, d.types[j]))
  }

  /** The declared types of all domains, domain by domain. */
  function Declarations(ds: seq<Domain>): (r: seq<Declared>)
    ensures forall x :: x in r <==> exists i :: 0 <= i < |ds| && x.domain == ds[i].name && x.spec in ds[i].types
    decreases |ds|
  {
    if ds == [] then []
    else
      var front := ds[..|ds| - 1];
      var r := Declarations(front) + DomainDeclarations(ds[|ds| - 1]);
      assert forall i :: 0 <= i < |front| ==> front[i] == ds[i];
      r
  }

  /**
   * typeMap.put(KeyOf(x), x) for each declaration x in order, starting from m: every
   * declared key is present, and every entry is either one of the declarations under its
   * own key or an entry m already had.
   */
  function Register(m: map<string, Declared>, decls: seq<Declared>): (r: map<string, Declared>)
    ensures r.Keys == m.Keys + set x | x in decls :: KeyOf(x)
    ensures forall k :: k in r ==> (r[k] in decls && KeyOf(r[k]) == k) || (k in m && r[k] == m[k])
    decreases |decls|
  {
    if decls == [] then m
    else
      var front := decls[..|decls| - 1];
      var last := decls[|decls| - 1];
      assert decls == front + [last];
      Register(m, front)[KeyOf(last) := last]
  }

  /** Registering one more declaration is one more put. */
  lemma RegisterSnoc(m: map<string, Declared>, decls: seq<Declared>, x: Declared)
    ensures Register(m, decls + [x]) == Register(m, decls)[KeyOf(x) := x]
  {
    assert (decls + [x])[..|decls|] == decls;
  }

  /** Registering the next type of a domain is one more put, under that type's key. */
  lemma RegisterNextType(m: map<string, Declared>, before: seq<Declared>, d: Domain, j: nat)
    requires j < |d.types|
    ensures Register(m, before + DomainDeclarations(d)[..j + 1]) ==
      Register(m, before + DomainDeclarations(d)[..j])[Key(d.name, d.types[j].id) := Declared(d.name, d.types[j])]
  {
    var x := Declared(d.name, d.types[j]);
    assert before + DomainDeclarations(d)[..j + 1] == before + DomainDeclarations(d)[..j] + [x];
    RegisterSnoc(m, before + DomainDeclarations(d)[..j], x);
  }

  /** Once every type of domain i is registered, the domains up to i are. */
  lemma RegisterNextDomain(m: map<string, Declared>, ds: seq<Domain>, i: nat)
    requires i < |ds|
    ensures Register(m, Declarations(ds[..i]) + DomainDeclarations(ds[i])[..|ds[i].types|]) ==
      Register(m, Declarations(ds[..i + 1]))
  {
    DeclarationsSnoc(ds, i);
    assert DomainDeclarations(ds[i])[..|ds[i].types|] == DomainDeclarations(ds[i]);
  }

  /** The declarations of one more domain follow those of the domains before it. */
  lemma DeclarationsSnoc(ds: seq<Domain>, i: nat)
    requires i < |ds|
    ensures Declarations(ds[..i + 1]) == Declarations(ds[..i]) + DomainDeclarations(ds[i])
  {
    assert ds[..i + 1][..i] == ds[..i];
  }

  /** When several declarations share a key, the last one wins. */
  lemma {:induction false} RegisterLastWins(m: map<string, Declared>, decls: seq<Declared>, i: nat)
    requires i < |decls|
    requires forall j :: i < j < |decls| ==> KeyOf(decls[j]) != KeyOf(decls[i])
    ensures KeyOf(decls[i]) in Register(m, decls)
    ensures Register(m, decls)[KeyOf(decls[i])] == decls[i]
  {
    var front := decls[..|decls| - 1];
    if i < |decls| - 1 {
      RegisterLastWins(m, front, i);
    }
  }

  /**
   * One domain's registrations: each of its declared types is found under "<domain>.<id>",
   * and a type that no later type of the domain shadows is the entry stored there.
   */
  lemma DomainTypeRegistered(m: map<string, Declared>, d: Domain, j: nat)
    requires j < |d.types|
    requires forall k :: j < k < |d.types| ==> d.types[k].id != d.types[j].id
    ensures Key(d.name, d.types[j].id) in Register(m, DomainDeclarations(d))
    ensures Register(m, DomainDeclarations(d))[Key(d.name, d.types[j].id)] == Declared(d.name, d.types[j])
  {
    var decls := DomainDeclarations(d);
    forall k | j < k < |decls|
      ensures KeyOf(decls[k]) != KeyOf(decls[j])
    {
      var a, b := d.types[k].id, d.types[j].id;
      if Key(d.name, a) == Key(d.name, b) {
        assert a == Key(d.name, a)[|d.name| + 1..];
        assert b == Key(d.name, b)[|d.name| + 1..];
      }
    }
    RegisterLastWins(m, decls, j);
  }

  /**
   * After pass 1 over the merged domains, a key is registered exactly when some domain
   * declared a type under it, wherever that domain stands in the merged order.
   */
  lemma RegisteredIffDeclared(ds: seq<Domain>, key: string)
    ensures key in Register(map[], Declarations(ds)) <==>
      exists i, t :: 0 <= i < |ds| && t in ds[i].types && Key(ds[i].name, t.id) == key
  {
    if key in Register(map[], Declarations(ds)) {
      RegisteredOnlyIfDeclared(ds, key);
    }
    if exists i, t :: 0 <= i < |ds| && t in ds[i].types && Key(ds[i].name, t.id) == key {
      var i, t :| 0 <= i < |ds| && t in ds[i].types && Key(ds[i].name, t.id) == key;
      DeclaredIsRegistered(ds, i, t);
    }
  }

  lemma RegisteredOnlyIfDeclared(ds: seq<Domain>, key: string)
    requires key in Register(map[], Declarations(ds))
    ensures exists i, t :: 0 <= i < |ds| && t in ds[i].types && Key(ds[i].name, t.id) == key
  {
    var x := Register(map[], Declarations(ds))[key];
    DeclaredKeyOf(ds, x);
  }

  lemma DeclaredKeyOf(ds: seq<Domain>, x: Declared)
    requires x in Declarations(ds)
    ensures exists i, t :: 0 <= i < |ds| && t in ds[i].types && Key(ds[i].name, t.id) == KeyOf(x)
  {
    var i :| 0 <= i < |ds| && x.domain == ds[i].name && x.spec in ds[i].types;
    assert Key(ds[i].name, x.spec.id) == KeyOf(x);
  }

  lemma DeclaredIsRegistered(ds: seq<Domain>, i: nat, t: TypeSpec)
    requires i < |ds| && t in ds[i].types
    ensures Key(ds[i].name, t.id) in Register(map[], Declarations(ds))
  {
    var x := Declared(ds[i].name, t);
    assert x in Declarations(ds);
    assert KeyOf(x) in set y | y in Declarations(ds) :: KeyOf(y);
  }

  /**
   * The key a "$ref" names from inside `domain`: "D.X" names key "D.X", a one-piece "X"
   * names `domain` + ".X", and a reference that splits into no pieces names nothing.
   */
  function RefKey(domain: string, ref: string): Option<string> {
    var parts := SplitDots(ref);
    if |parts| == 2 then Some(Key(parts[0], parts[1]))
    else if |parts| == 0 then None
    else Some(Key(domain, parts[0]))
  }

  lemma RefKeyQualified(domain: string, d: string, x: string)
    requires '.' !in d && '.' !in x && x != []
    ensures RefKey(domain, d + "." + x) == Some(Key(d, x))
  {
    SplitQualified(d, x);
  }

  lemma RefKeyBare(domain: string, x: string)
    requires '.' !in x && x != []
    ensures RefKey(domain, x) == Some(Key(domain, x))
  {
    SplitBare(x);
  }

  lemma {:induction false} PiecesOfDots(s: string)
    requires forall i :: 0 <= i < |s| ==> s[i] == '.'
    ensures |Pieces(s)| == |s| + 1
    ensures forall i :: 0 <= i < |Pieces(s)| ==> Pieces(s)[i] == []
  {
    if s != [] {
      PiecesOfDots(s[1..]);
    }
  }

  lemma {:induction false} DropAllEmpty(ps: seq<string>)
    requires forall i :: 0 <= i < |ps| ==> ps[i] == []
    ensures DropTrailingEmpty(ps) == []
    decreases |ps|
  {
    if ps != [] {
      DropAllEmpty(ps[..|ps| - 1]);
    }
  }

  /** A reference made only of dots names no key (the source indexes an empty split result). */
  lemma RefKeyOnlyDots(domain: string, ref: string)
    requires forall i :: 0 <= i < |ref| ==> ref[i] == '.'
    ensures RefKey(domain, ref) == None
  {
    PiecesOfDots(ref);
    DropAllEmpty(Pieces(ref));
  }
}
