/**
 * The generator itself: an object holding the root package, the connection class name, the
 * registry of declared types (`typeMap`) and the files written so far (`log`). Each method
 * does what its emitter does, step by step, and is proved to write exactly the files, in
 * exactly the order, that the matching function of Traces describes.
 */
module Generation {
  import opened Results
  import opened Text
  import opened Schema
  import opened Registry
  import opened Resolver
  import opened Emit
  import opened Traces

  class Generator {
    /** The root package every generated package hangs under. */
    const pkg: string
    /** The connection class every domain wrapper sends its commands through. */
    const connectionClassName: string
    /** Registry of declared types, keyed "<domain>.<id>", filled in pass 1. */
    var typeMap: map<string, Declared>
    /** Every file written so far, in order. */
    var log: seq<Decl>

    constructor(pkg: string, connectionClassName: string)
      ensures this.pkg == pkg && this.connectionClassName == connectionClassName
      ensures typeMap == map[] && log == []
    {
      this.pkg := pkg;
      this.connectionClassName := connectionClassName;
      typeMap := map[];
      log := [];
    }

    /** writeFile: the file joins the output; an earlier file of the same name is replaced on disk. */
    method WriteFile(d: Decl)
      modifies this
      ensures log == old(log) + [d] && typeMap == old(typeMap)
    {
      log := log + [d];
    }

    /** createEnumInterface: the marker interface under the root package. */
    method CreateEnumInterface()
      modifies this
      ensures log == old(log) + [MarkerDecl(pkg)] && typeMap == old(typeMap)
    {
      WriteFile(Decl(pkg, MarkerInterface(EnumMarker)));
    }

    /** createEnum: one case per enum value, in order, named by the normalised value. */
    method CreateEnum(t: TypeSpec) returns (body: Body)
      ensures body == EnumBodyOf(pkg, t)
    {
      var cases: seq<EnumCase> := [];
      var i := 0;
      while i < |t.enums|
        invariant 0 <= i <= |t.enums|
        invariant cases == EnumCases(t.enums[..i])
      {
        var e := t.enums[i];
        cases := cases + [EnumCase(NormalizeIdent(e), e)];
        assert t.enums[..i + 1][..i] == t.enums[..i];
        i := i + 1;
      }
      assert t.enums[..i] == t.enums;
      body := EnumBody(t.id, pkg + "." + EnumMarker, cases);
    }

    /** The enum branch of createType: the enum's file in its domain's constant package. */
    method EmitEnum(domain: string, t: TypeSpec)
      requires IsEnum(t)
      modifies this
      ensures log == old(log) + [EnumDecl(pkg, domain, t)] && typeMap == old(typeMap)
    {
      var body := CreateEnum(t);
      WriteFile(Decl(Package(pkg, t, domain), body));
    }

    /**
     * getType: the Java type name of `spec` met in `domain`. A reference is followed through
     * the registry, an array wraps its items' type, and an anonymous inline enum is
     * synthesized and written on the spot. `owner` and `visited` are explained at Resolve.
     */
    method GetType(domain: string, spec: TypeSpec, owner: Option<string>, parentId: string, visited: set<string>)
      returns (r: Result<string>)
      modifies this
      ensures typeMap == old(typeMap)
      ensures var res := Resolve(typeMap, pkg, domain, spec, owner, parentId, visited);
        r == (if res.Err? then Err(res.error) else Ok(res.value.name)) &&
        log == old(log) + (if res.Ok? && res.value.pending.Some? then [EnumDecl(pkg, domain, res.value.pending.value)] else [])
      decreases |typeMap.Keys - visited|, spec
    {
      if spec.ref != [] {
        var key := RefKey(domain, spec.ref);
        if key.None? {
          return Err(MalformedReference);
        }
        if key.value !in typeMap {
          return Err(UnresolvedReference);
        }
        if key.value in visited {
          return Err(CyclicReference);
        }
        FollowShrinks(typeMap.Keys, visited, key.value);
        var target := typeMap[key.value];
        r := GetType(domain, target.spec, Some(target.domain), spec.id, visited + {key.value});
        return;
      }
      if spec.kind.None? {
        return Err(UnknownKind);
      }
      match spec.kind.value {
        case Object =>
          if spec.id != [] && |spec.properties| > 0 {
            if owner.None? {
              return Err(MissingDomain);
            }
            return Ok(Qualified(pkg, spec, owner.value));
          }
          return Ok(MapType);
        case Array =>
          if spec.items.None? {
            return Err(MissingItems);
          }
          var inner := GetType(domain, spec.items.value, None, spec.id, visited);
          if inner.Err? {
            return Err(inner.error);
          }
          return Ok(ListPrefix + inner.value + ">");
        case String =>
          if |spec.enums| > 0 {
            if spec.id == [] {
              if parentId == [] {
                return Err(MissingNamingContext);
              }
              var s := SynthesizedEnum(parentId, spec);
              EmitEnum(domain, s);
              return Ok(Qualified(pkg, s, domain));
            }
            if owner.None? {
              return Err(MissingDomain);
            }
            return Ok(Qualified(pkg, spec, owner.value));
          }
          return Ok("String");
        case Any => return Ok("Object");
        case Number => return Ok("java.math.BigDecimal");
        case Boolean => return Ok("Boolean");
        case Integer => return Ok("Integer");
      }
    }
  
    /** One iteration of createObject's first loop: resolve the property, then name its field. */
    method ResolveField(domain: string, t: TypeSpec, prop: TypeSpec) returns (r: Result<Field>)
      modifies this
      ensures typeMap == old(typeMap)
      ensures var ft := PropertyStep(typeMap, pkg, domain, t)(prop);
        log == old(log) + ft.emitted && r == ft.outcome
    {
      var typeName := GetType(domain, prop, None, t.id, {});
      if typeName.Err? {
        return Err(typeName.error);
      }
      if prop.name.None? {
        return Err(MissingPropertyName);
      }
      r := Ok(Field(typeName.value, FieldName(prop.name.value)));
    }

    /**
     * The first loop of createObject: every property resolved once, in order (writing any
     * inline enum), its field typed with that resolution and named after the property.
     */
    method ResolveFields(domain: string, t: TypeSpec) returns (r: Result<seq<Field>>)
      modifies this
      ensures typeMap == old(typeMap)
      ensures var fs := PropertiesTrace(typeMap, pkg, domain, t, t.properties);
        log == old(log) + fs.emitted && r == fs.outcome
    {
      var props := t.properties;
      ghost var step := PropertyStep(typeMap, pkg, domain, t);
      var fields: seq<Field> := [];
      var i := 0;
      while i < |props|
        invariant 0 <= i <= |props| && typeMap == old(typeMap)
        invariant step == PropertyStep(typeMap, pkg, domain, t)
        invariant Fold(step, Append(), [], props[..i]).outcome == Ok(fields)
        invariant log == old(log) + Fold(step, Append(), [], props[..i]).emitted
      {
        ghost var log0 := log;
        var field := ResolveField(domain, t, props[i]);
        FoldNext(step, Append(), [], props, i, fields, old(log), log0, log);
        if field.Err? {
          return Err(field.error);
        }
        fields := fields + [field.value];
        i := i + 1;
      }
      FoldDone(step, Append(), [], props);
      r := Ok(fields);
    }

    /**
     * createObject's full constructor: every field as a parameter, in order, each copied into
     * its field; and whether some property is optional.
     */
    method FullConstructor(props: seq<TypeSpec>, fields: seq<Field>) returns (hasOptional: bool, full: Ctor)
      requires |props| == |fields|
      ensures hasOptional <==> HasOptional(props)
      ensures full == Ctor(fields, CopyAssigns(fields))
    {
      var params: seq<Field> := [];
      hasOptional := false;
      var i := 0;
      while i < |props|
        invariant 0 <= i <= |props|
        invariant params == fields[..i]
        invariant hasOptional <==> exists j :: 0 <= j < i && props[j].optional
      {
        if props[i].optional {
          hasOptional := true;
        }
        params := params + [fields[i]];
        assert fields[..i + 1] == fields[..i] + [fields[i]];
        i := i + 1;
      }
      assert params == fields;

      var assigns: seq<Assign> := [];
      i := 0;
      while i < |fields|
        invariant 0 <= i <= |fields|
        invariant assigns == CopyAssigns(fields[..i])
      {
        assigns := assigns + [Assign(fields[i].name, Some(fields[i].name))];
        assert fields[..i + 1][..i] == fields[..i];
        i := i + 1;
      }
      assert fields[..i] == fields;
      full := Ctor(params, assigns);
    }

    /**
     * createObject's defaults constructor: the non-optional fields as parameters, in order;
     * each of them copied, every optional field set to null.
     */
    method DefaultsConstructor(props: seq<TypeSpec>, fields: seq<Field>) returns (defaults: Ctor)
      requires |props| == |fields|
      ensures defaults == Ctor(Kept(props, fields), DefaultAssigns(props, fields))
    {
      var kept: seq<Field> := [];
      var i := 0;
      while i < |props|
        invariant 0 <= i <= |props|
        invariant kept == Kept(props[..i], fields[..i])
      {
        if !props[i].optional {
          kept := kept + [fields[i]];
        }
        assert props[..i + 1][..i] == props[..i] && fields[..i + 1][..i] == fields[..i];
        i := i + 1;
      }
      assert props[..i] == props && fields[..i] == fields;

      var assigns: seq<Assign> := [];
      i := 0;
      while i < |props|
        invariant 0 <= i <= |props|
        invariant assigns == DefaultAssigns(props[..i], fields[..i])
      {
        assigns := assigns + [Assign(fields[i].name, if props[i].optional then None else Some(fields[i].name))];
        assert props[..i + 1][..i] == props[..i] && fields[..i + 1][..i] == fields[..i];
        i := i + 1;
      }
      assert props[..i] == props && fields[..i] == fields;
      defaults := Ctor(kept, assigns);
    }

    /**
     * createObject: the class body of an object-shaped spec: its fields from the first loop,
     * the full constructor, and the defaults constructor only when some property is optional.
     */
    method CreateObject(domain: string, t: TypeSpec) returns (r: Result<Body>)
      modifies this
      ensures typeMap == old(typeMap)
      ensures var fs := PropertiesTrace(typeMap, pkg, domain, t, t.properties);
        log == old(log) + fs.emitted &&
        r == if fs.outcome.Err? then Err(fs.outcome.error) else Ok(ObjectBodyOf(t.id, t.properties, fs.outcome.value))
    {
      var resolved := ResolveFields(domain, t);
      if resolved.Err? {
        return Err(resolved.error);
      }
      var fields := resolved.value;
      var hasOptional, full := FullConstructor(t.properties, fields);
      var defaults: Option<Ctor> := None;
      if hasOptional {
        var ctor := DefaultsConstructor(t.properties, fields);
        defaults := Some(ctor);
      }
      r := Ok(ClassBody(t.id, fields, full, defaults));
    }

    /**
     * createType: writes an enum-shaped spec's enum, or an object-shaped spec's class (after
     * the enums its properties synthesize), into the spec's package; skips anything else.
     */
    method CreateType(domain: string, t: TypeSpec) returns (r: Result<()>)
      modifies this
      ensures typeMap == old(typeMap)
      ensures log == old(log) + TypeTrace(typeMap, pkg, domain, t).emitted
      ensures r == TypeTrace(typeMap, pkg, domain, t).outcome
    {
      if !(IsEnum(t) || IsObject(t)) {
        return Ok(());
      }
      if IsEnum(t) {
        EmitEnum(domain, t);
        return Ok(());
      }
      var body := CreateObject(domain, t);
      if body.Err? {
        return Err(body.error);
      }
      WriteFile(Decl(Package(pkg, t, domain), body.value));
      r := Ok(());
    }

    /**
     * createCommand, for one command: the Response class when the command returns values,
     * then the Request class when it takes parameters, then the wrapper method using both.
     */
    method CreateCommandMethod(domain: string, c: Command) returns (r: Result<CommandMethod>)
      modifies this
      ensures typeMap == old(typeMap)
      ensures var ct := CommandStep(typeMap, pkg, domain)(c);
        log == old(log) + ct.emitted && r == ct.outcome
    {
      var response: Option<string> := None;
      ghost var resp: seq<Decl> := [];
      if |c.returnValues| > 0 {
        var rs := ResponseSpec(c);
        var done := CreateType(domain, rs);
        if done.Err? {
          return Err(done.error);
        }
        resp := TypeTrace(typeMap, pkg, domain, rs).emitted;
        response := Some(Qualified(pkg, rs, domain));
      }
      var request: Option<string> := None;
      ghost var req: seq<Decl> := [];
      if |c.parameters| > 0 {
        var qs := RequestSpec(c);
        var done := CreateType(domain, qs);
        req := TypeTrace(typeMap, pkg, domain, qs).emitted;
        Concat3(old(log), resp, req, []);
        if done.Err? {
          return Err(done.error);
        }
        request := Some(Qualified(pkg, qs, domain));
      }
      Concat3(old(log), resp, req, []);
      r := Ok(CommandMethodOf(domain, c, response, request));
    }

    /**
     * createCommand: the classes each command synthesizes, command by command, then the
     * domain's wrapper class with one method per command, in order.
     */
    method CreateCommand(d: Domain) returns (r: Result<()>)
      modifies this
      ensures typeMap == old(typeMap)
      ensures var t := DomainClassTrace(typeMap, pkg, connectionClassName, d);
        log == old(log) + t.emitted && r == t.outcome
    {
      var cs := d.commands;
      ghost var step := CommandStep(typeMap, pkg, d.name);
      var methods: seq<CommandMethod> := [];
      var i := 0;
      while i < |cs|
        invariant 0 <= i <= |cs| && typeMap == old(typeMap)
        invariant step == CommandStep(typeMap, pkg, d.name)
        invariant Fold(step, Append(), [], cs[..i]).outcome == Ok(methods)
        invariant log == old(log) + Fold(step, Append(), [], cs[..i]).emitted
      {
        ghost var log0 := log;
        var m := CreateCommandMethod(d.name, cs[i]);
        FoldNext(step, Append(), [], cs, i, methods, old(log), log0, log);
        if m.Err? {
          return Err(m.error);
        }
        methods := methods + [m.value];
        i := i + 1;
      }
      FoldDone(step, Append(), [], cs);
      WriteFile(Decl(pkg + ".domain", DomainBody(d.name, connectionClassName, methods)));
      r := Ok(());
    }

    /** createEvent, for one event: its payload class when it has parameters, and its entry. */
    method CreateEventEntry(domain: string, e: Event) returns (r: Result<EventEntry>)
      modifies this
      ensures typeMap == old(typeMap)
      ensures var et := EventStep(typeMap, pkg, domain)(e);
        log == old(log) + et.emitted && r == et.outcome
    {
      var key := WireId(domain, e.name);
      if |e.parameters| == 0 {
        return Ok(EventEntry(key, None));
      }
      var es := EventSpec(e);
      var done := CreateType(domain, es);
      if done.Err? {
        return Err(done.error);
      }
      r := Ok(EventEntry(key, Some(Qualified(pkg, es, domain))));
    }

    /** createEvent: every event of the domain, in order, put into an ordered map by wire id. */
    method CreateEvent(d: Domain) returns (r: Result<seq<EventEntry>>)
      modifies this
      ensures typeMap == old(typeMap)
      ensures var t := EventsTrace(typeMap, pkg, d.name, d.events);
        log == old(log) + t.emitted && r == t.outcome
    {
      var events := d.events;
      if |events| == 0 {
        return Ok([]);
      }
      ghost var step := EventStep(typeMap, pkg, d.name);
      var values: seq<EventEntry> := [];
      var i := 0;
      while i < |events|
        invariant 0 <= i <= |events| && typeMap == old(typeMap)
        invariant step == EventStep(typeMap, pkg, d.name)
        invariant Fold(step, PutEntry(), [], events[..i]).outcome == Ok(values)
        invariant log == old(log) + Fold(step, PutEntry(), [], events[..i]).emitted
      {
        ghost var log0 := log;
        var entry := CreateEventEntry(d.name, events[i]);
        FoldNext(step, PutEntry(), [], events, i, values, old(log), log0, log);
        if entry.Err? {
          return Err(entry.error);
        }
        values := Put(values, entry.value);
        i := i + 1;
      }
      FoldDone(step, PutEntry(), [], events);
      r := Ok(values);
    }

    /** The loop of execute over a domain's declared types: createType on each, in order. */
    method CreateTypes(d: Domain) returns (r: Result<()>)
      modifies this
      ensures typeMap == old(typeMap)
      ensures var t := TypesTrace(typeMap, pkg, d.name, d.types);
        log == old(log) + t.emitted && r == t.outcome
    {
      var types := d.types;
      ghost var step := TypeStep(typeMap, pkg, d.name);
      var i := 0;
      while i < |types|
        invariant 0 <= i <= |types| && typeMap == old(typeMap)
        invariant step == TypeStep(typeMap, pkg, d.name)
        invariant Fold(step, Skip(), (), types[..i]).outcome == Ok(())
        invariant log == old(log) + Fold(step, Skip(), (), types[..i]).emitted
      {
        ghost var log0 := log;
        var done := CreateType(d.name, types[i]);
        FoldNext(step, Skip(), (), types, i, (), old(log), log0, log);
        if done.Err? {
          return Err(done.error);
        }
        i := i + 1;
      }
      FoldDone(step, Skip(), (), types);
      r := Ok(());
    }

    /** Pass 2 of execute on one domain: its types, then its wrapper class, then its events. */
    method GenerateDomain(d: Domain) returns (r: Result<seq<EventEntry>>)
      modifies this
      ensures typeMap == old(typeMap)
      ensures var t := DomainStep(typeMap, pkg, connectionClassName)(d);
        log == old(log) + t.emitted && r == t.outcome
    {
      var types := CreateTypes(d);
      if types.Err? {
        return Err(types.error);
      }
      ghost var ts := TypesTrace(typeMap, pkg, d.name, d.types).emitted;
      var wrapper := CreateCommand(d);
      ghost var cl := DomainClassTrace(typeMap, pkg, connectionClassName, d).emitted;
      Concat3(old(log), ts, cl, []);
      if wrapper.Err? {
        return Err(wrapper.error);
      }
      r := CreateEvent(d);
      Concat3(old(log), ts, cl, EventsTrace(typeMap, pkg, d.name, d.events).emitted);
    }

    /** createEventEnum: one registry case per entry of the merged event map, in order. */
    method CreateEventEnum(values: seq<EventEntry>)
      modifies this
      ensures log == old(log) + [EventRegistryDecl(pkg, values)] && typeMap == old(typeMap)
    {
      var cases: seq<EventCase> := [];
      var i := 0;
      while i < |values|
        invariant 0 <= i <= |values|
        invariant cases == EventCases(values[..i])
      {
        var e := values[i];
        cases := cases + [EventCase(NormalizeIdent(e.key), e.key, e.payload)];
        assert values[..i + 1][..i] == values[..i];
        i := i + 1;
      }
      assert values[..i] == values;
      WriteFile(Decl(pkg, EventEnumBody(EventEnumName, cases)));
    }

    /**
     * The inner loop of pass 1: every declared type of `d`, in order, put into the registry
     * under "<domain>.<id>", on top of the declarations `before` registered over `m`.
     */
    method RegisterDomain(ghost m: map<string, Declared>, ghost before: seq<Declared>, d: Domain)
      requires typeMap == Register(m, before)
      modifies this
      ensures typeMap == Register(m, before + DomainDeclarations(d)[..|d.types|]) && log == old(log)
    {
      assert before + DomainDeclarations(d)[..0] == before;
      var j := 0;
      while j < |d.types|
        invariant 0 <= j <= |d.types| && log == old(log)
        invariant typeMap == Register(m, before + DomainDeclarations(d)[..j])
      {
        RegisterNextType(m, before, d, j);
        typeMap := typeMap[Key(d.name, d.types[j].id) := Declared(d.name, d.types[j])];
        j := j + 1;
      }
    }

    /** Pass 1 of execute: every declared type of every domain put into the registry, in order. */
    method RegisterTypes(ds: seq<Domain>)
      modifies this
      ensures typeMap == Register(old(typeMap), Declarations(ds)) && log == old(log)
    {
      var i := 0;
      while i < |ds|
        invariant 0 <= i <= |ds| && log == old(log)
        invariant typeMap == Register(old(typeMap), Declarations(ds[..i]))
      {
        RegisterDomain(old(typeMap), Declarations(ds[..i]), ds[i]);
        RegisterNextDomain(old(typeMap), ds, i);
        i := i + 1;
      }
      assert ds[..i] == ds;
    }

    /**
     * execute: compare the versions, write the marker interface, merge the domains (browser
     * first), register every declared type, generate every domain merging their events, and
     * finally write the event registry.
     */
    method Execute(browser: Document, js: Document) returns (r: Result<()>)
      modifies this
      ensures var run := Run(old(typeMap), pkg, connectionClassName, browser, js);
        typeMap == run.registry && log == old(log) + run.trace.emitted && r == run.trace.outcome
    {
      if !VersionEquals(browser.version, js.version) {
        return Err(VersionMismatch);
      }
      CreateEnumInterface();
      var ds := browser.domains + js.domains;
      RegisterTypes(ds);
      ghost var step := DomainStep(typeMap, pkg, connectionClassName);
      ghost var start := log;
      var events: seq<EventEntry> := [];
      var i := 0;
      while i < |ds|
        invariant 0 <= i <= |ds| && typeMap == Register(old(typeMap), Declarations(ds))
        invariant step == DomainStep(typeMap, pkg, connectionClassName)
        invariant Fold(step, PutEntries(), [], ds[..i]).outcome == Ok(events)
        invariant log == start + Fold(step, PutEntries(), [], ds[..i]).emitted
      {
        ghost var log0 := log;
        var entries := GenerateDomain(ds[i]);
        FoldNext(step, PutEntries(), [], ds, i, events, start, log0, log);
        if entries.Err? {
          Concat3(old(log), [MarkerDecl(pkg)], Fold(step, PutEntries(), [], ds).emitted, []);
          return Err(entries.error);
        }
        events := PutAll(events, entries.value);
        i := i + 1;
      }
      FoldDone(step, PutEntries(), [], ds);
      CreateEventEnum(events);
      Concat3(old(log), [MarkerDecl(pkg)], Fold(step, PutEntries(), [], ds).emitted, [EventRegistryDecl(pkg, events)]);
      r := Ok(());
    }
  }
}
