# jpuppeteer-generator, modelled in Dafny

jpuppeteer-generator is a Maven plugin. It reads the two Chrome DevTools Protocol
documents (browser and JavaScript) and writes Java sources for them:

- one enum per enumerated string type;
- one class per object type;
- Request and Response classes for commands, and payload classes for events;
- one wrapper class per domain, with one asynchronous method per command;
- a global `CDPEventType` enum listing every event;
- the `CDPEnum` marker interface that every generated enum implements.

This project models the generator's core, `GenMojo`. A run first checks that the two
documents agree on the protocol version. It then writes the marker interface and merges
the domain lists, browser domains first. Pass 1 registers every declared type under the key
`<domain>.<id>`. Pass 2 generates each domain in order:

1. its declared types;
2. its command wrapper;
3. its events, which are merged into one ordered map of wire ids.

The run ends by writing the event registry enum.

The model has these layers:

- **Values.** Protocol entities are datatypes in `Schema`. The kinds are `TypeType`, and
  `TypeType.find` matches names case-insensitively. `Schema` also holds `Version.equals`,
  `isEnum`, `isObject` and `getPackage`.
- **Naming.** `Text` holds capitalisation, identifier normalisation and `$ref` splitting.
- **Registry.** `Registry` holds the `typeMap` as a map built by last-wins puts, and the
  lookup key of a reference.
- **Type resolution.** `getType` is a total function, `Resolver.Resolve`. It returns either
  a type name (plus the inline enum it synthesized, if any) or the exception the generator
  would throw.
- **Output structure.** `Emit` describes the structure of each generated file: enum cases,
  fields, constructors, command methods, the ordered event map and the event registry
  cases. The text formatting is not modelled.
- **Traces.** `Traces` gives every emitter a specification function. It returns the files
  the emitter writes, in order, and its outcome. The loops that stop at the first exception
  share one `Fold`.
- **The generator object.** `Generation.Generator` is the generator as an object. Its fields
  are the `typeMap` and the sequence of files written so far. Each method performs its
  emitter step by step and is proved to write exactly what its trace function describes.
- **Whole-run properties.** `Orchestration` states what a whole run promises.

In these places the generator behaves in a way a reader may not expect; the model follows the code:

- A command's Request and Response ids are only `Capitalize(name) + "Request"` and
  `Capitalize(name) + "Response"`. The domain name is not part of the id, so commands of the
  same name in two domains share an id. The classes stay apart only because they are in
  different per-domain packages.
- The event map is a `LinkedHashMap`. A key that is put a second time keeps its first
  position and takes the later payload.
- An inline enum that `getType` synthesizes is placed in the domain being generated. This
  is not necessarily the domain that owns the referenced type.

## Model

| member | source | states |
|---|---|---|
| Text.Capitalize | src/main/java/jpuppeteer/GenMojo.java:570 | The result equals the input ignoring case, and its first character is not a lower-case letter, so only that character is upper-cased. The length and the rest of the string are unchanged. |
| Text.CapitalizeUnique | src/main/java/jpuppeteer/GenMojo.java:570 | A string of the same length that equals the input ignoring case, has no lower-case first letter and keeps the rest is exactly the capitalized string. |
| Text.CapitalizeIdempotent | src/main/java/jpuppeteer/GenMojo.java:570 | Capitalizing an id twice gives the same id as capitalizing it once. |
| Text.Lower | src/main/java/jpuppeteer/GenMojo.java:807-809 | The package segment for a domain has the same length as the domain name and contains no upper-case letter. |
| Text.RemoveEndIgnoreCase | src/main/java/jpuppeteer/GenMojo.java:249 | The result is a prefix of the input. It is exactly the suffix shorter when the suffix matches ignoring case, and equals the input otherwise. |
| Text.NormalizeIdent | src/main/java/jpuppeteer/GenMojo.java:479 | An enum constant name keeps the raw value's length, and every character in it is an upper-case letter, a digit or `_`. |
| Text.NormalizeIdentAt | src/main/java/jpuppeteer/GenMojo.java:155 | Each character is either upper-cased or replaced by `_`, position by position. |
| Text.NormalizeIdentFixesIdents | src/main/java/jpuppeteer/GenMojo.java:479 | A value that is already a valid constant name is kept as it is. |
| Text.NormalizeIdentIdempotent | src/main/java/jpuppeteer/GenMojo.java:479 | Normalising twice gives the same name as normalising once. |
| Text.NormalizeIdentCollides | src/main/java/jpuppeteer/GenMojo.java:478-480 | Two different raw values, `a-b` and `A_B`, get the same constant name, and nothing guards against this. |
| Text.Pieces | src/main/java/jpuppeteer/GenMojo.java:537 | Splitting on `.` gives at least one piece, and no piece contains a dot. |
| Text.DropTrailingEmpty | src/main/java/jpuppeteer/GenMojo.java:537 | `String.split` drops exactly the trailing empty pieces. The result is a prefix whose last piece is not empty. |
| Text.SplitQualified | src/main/java/jpuppeteer/GenMojo.java:537-539 | `Domain.Type` splits into exactly two pieces. |
| Text.SplitBare | src/main/java/jpuppeteer/GenMojo.java:537-539 | A bare `Type` splits into exactly one piece. |
| Schema.Find | src/main/java/jpuppeteer/GenMojo.java:818-825 | Returns a kind whose name equals the value ignoring case, or nothing when no kind's name matches. |
| Schema.KindNamesDistinct | src/main/java/jpuppeteer/GenMojo.java:812-825 | At most one kind matches a value, so the first-match loop is unambiguous. |
| Schema.VersionEqualsIsStructural | src/main/java/jpuppeteer/GenMojo.java:705-712 | Two versions are equal exactly when their majors and minors are equal, and an absent part equals only an absent part. |
| Schema.PackageSeparatesEnums | src/main/java/jpuppeteer/GenMojo.java:799-809 | Within one domain, two types share a package exactly when both or neither are enums, because enums go to `constant` and everything else to `entity`. |
| Schema.PackageDomainSegment | src/main/java/jpuppeteer/GenMojo.java:807-809 | The package is the root package, then `.constant.` or `.entity.`, then the lower-cased domain name. |
| Registry.Declarations | src/main/java/jpuppeteer/GenMojo.java:54-62 | A registration appears exactly when some domain declares that type. |
| Registry.Register | src/main/java/jpuppeteer/GenMojo.java:54-62 | The registry's keys are the old keys plus the keys of all registrations. Each entry is either a registration under its own key or an old entry. |
| Registry.DomainTypeRegistered | src/main/java/jpuppeteer/GenMojo.java:55-61 | After a domain is registered, each of its declared types that no later type of the same domain shadows is stored under `<domain>.<id>`, as that type tagged with the domain. |
| Registry.RegisterLastWins | src/main/java/jpuppeteer/GenMojo.java:59 | A registration that no later registration overwrites is the entry stored under its key. |
| Registry.RegisteredIffDeclared | src/main/java/jpuppeteer/GenMojo.java:54-62 | Starting from an empty registry, a key is registered exactly when some domain declares a type with that domain name and id. |
| Registry.RefKeyQualified | src/main/java/jpuppeteer/GenMojo.java:536-540 | The reference `D.X` is looked up under `D.X`. |
| Registry.RefKeyBare | src/main/java/jpuppeteer/GenMojo.java:536-540 | The reference `X` is looked up under the current domain, as `<domain>.X`. |
| Registry.RefKeyOnlyDots | src/main/java/jpuppeteer/GenMojo.java:537-539 | A reference made only of dots has no key, because `ref[0]` does not exist. |
| Resolver.SynthesizedEnum | src/main/java/jpuppeteer/GenMojo.java:567-573 | The inline enum is a string enum carrying the property's values, and its id starts with the capitalized parent id. |
| Resolver.Resolve | src/main/java/jpuppeteer/GenMojo.java:532-593 | A resolved type name is never empty. A synthesized enum has an id and no reference. |
| Resolver.ResolveReference | src/main/java/jpuppeteer/GenMojo.java:536-544 | An unregistered key fails. A registered key resolves the registered type, owned by its domain, with the referring spec as the parent. |
| Resolver.QualifiedReferenceFound | src/main/java/jpuppeteer/GenMojo.java:536-544 | With the registry from pass 1, `D.X` resolves exactly when domain `D` declares `X`, and then through that declaration. |
| Resolver.BareReferenceLooksUpCurrentDomain | src/main/java/jpuppeteer/GenMojo.java:536-544 | A bare reference resolves through the current domain's declaration, and fails when the current domain declares no such type. |
| Resolver.ResolvePrimitives | src/main/java/jpuppeteer/GenMojo.java:545-592 | Gives each primitive kind's fixed Java type name. An anonymous or property-less object becomes `java.util.Map<String, Object>`. An unknown kind fails. |
| Resolver.ResolveArray | src/main/java/jpuppeteer/GenMojo.java:553-560 | An array without items fails. Otherwise the result is `java.util.List<` plus the items' type plus `>`, and the items' synthesized enum is passed through. |
| Resolver.ResolveInlineEnum | src/main/java/jpuppeteer/GenMojo.java:563-575 | An anonymous enum fails without a parent id. Otherwise it is synthesized, named `Capitalize(parent.id) + Capitalize(name)`, and placed in the current domain's constant package. |
| Resolver.ResolveNamedEmitsNothing | src/main/java/jpuppeteer/GenMojo.java:546-577 | A named enum or object resolves to its qualified name and synthesizes nothing. |
| Resolver.PendingEnumPlacement | src/main/java/jpuppeteer/GenMojo.java:553-575 | Any synthesized enum, even one under arrays or references, is named after the returned type name's package in the current domain. |
| Resolver.ArrayOfInlineEnumProperty | src/main/java/jpuppeteer/GenMojo.java:553-570 | An array property whose items are an anonymous enum fails, because the array spec is the items' parent and has no id. |
| Emit.EnumCases | src/main/java/jpuppeteer/GenMojo.java:478-485 | One case per raw value, in order. Each case is named by the normalised value and constructed with the raw value. |
| Emit.EnumCaseIdentsWellFormed | src/main/java/jpuppeteer/GenMojo.java:479 | Every enum case name is a well-formed constant name. |
| Emit.FieldName | src/main/java/jpuppeteer/GenMojo.java:618 | A property named `this` becomes the field `self`, every other name is kept, and no field is ever named `this`. |
| Emit.CopyAssigns | src/main/java/jpuppeteer/GenMojo.java:642-649 | The full constructor assigns every field from its parameter, in order. |
| Emit.Kept | src/main/java/jpuppeteer/GenMojo.java:661-673 | The short constructor's parameters are drawn only from required fields. |
| Emit.KeptIndices | src/main/java/jpuppeteer/GenMojo.java:661-673 | The positions of the non-optional properties: strictly increasing, each of them a non-optional position, and every non-optional position among them. |
| Emit.KeptAtIndices | src/main/java/jpuppeteer/GenMojo.java:656-691 | The short constructor's parameters are the fields at exactly the non-optional positions, in declaration order, each once. |
| Emit.DefaultAssigns | src/main/java/jpuppeteer/GenMojo.java:674-689 | The short constructor assigns required fields from parameters and sets optional fields to null. |
| Emit.KeptHasEveryRequired | src/main/java/jpuppeteer/GenMojo.java:661-673 | Every required field is a parameter of the short constructor. |
| Emit.KeptAllWhenNoneOptional | src/main/java/jpuppeteer/GenMojo.java:627-640 | With no optional property, the short constructor would have the same parameters as the full one. |
| Emit.KeptShorterWhenOptional | src/main/java/jpuppeteer/GenMojo.java:656-691 | With an optional property, the short constructor has fewer parameters. |
| Emit.ObjectBodyOf | src/main/java/jpuppeteer/GenMojo.java:595-694 | The class has the fields in order and a full constructor over all of them. A defaults constructor exists exactly when some property is optional. |
| Emit.RequestAndResponseIdsDiffer | src/main/java/jpuppeteer/GenMojo.java:342-357 | A Request id never equals a Response id. |
| Emit.RequestIdInjective | src/main/java/jpuppeteer/GenMojo.java:342-357 | Two commands get the same Request (or Response) id exactly when their capitalized names are equal. |
| Emit.StripEventSuffix | src/main/java/jpuppeteer/GenMojo.java:249 | An event name ending in `Event` loses that suffix before `Event` is appended again. |
| Emit.EventIdIdempotent | src/main/java/jpuppeteer/GenMojo.java:249 | An event id ends in `Event`, and deriving an event id from it gives the same id back. |
| Emit.IndexOf | src/main/java/jpuppeteer/GenMojo.java:255-257 | Finds the entry holding a key, or reports that no entry holds it. |
| Emit.Put | src/main/java/jpuppeteer/GenMojo.java:255-257 | A new key is appended. An existing key keeps its position and takes the new entry, and every other entry is unchanged. Keys stay unique. |
| Emit.PutKeys | src/main/java/jpuppeteer/GenMojo.java:255-257 | After a put, the keys are the old keys plus the put key. |
| Emit.PutAll | src/main/java/jpuppeteer/GenMojo.java:74 | `putAll` keeps keys unique and keeps the existing keys first, in their order. |
| Emit.PutAllKeys | src/main/java/jpuppeteer/GenMojo.java:74 | After `putAll`, the keys are the old keys plus the added keys. |
| Emit.PutAllFresh | src/main/java/jpuppeteer/GenMojo.java:74 | `putAll` of entries whose keys are distinct and not yet in the map appends them, in order. |
| Emit.PutAllLastWins | src/main/java/jpuppeteer/GenMojo.java:74 | An added entry that no later entry overwrites is in the result. |
| Emit.EventCases | src/main/java/jpuppeteer/GenMojo.java:153-186 | One registry case per map entry, in order, each named by the normalised key and carrying the key and the payload class. |
| Traces.FoldOk | src/main/java/jpuppeteer/GenMojo.java:63-75 | A loop that stops at the first exception succeeds exactly when every step succeeds. |
| Traces.FoldEmitsAtMostOneEach | src/main/java/jpuppeteer/GenMojo.java:600-620 | Steps that each write at most one file write, together, at most one file per element. It is applied to the property loop by `Traces.PropertiesTraceEmitsEnums`. |
| Traces.FoldEmitsOnly | src/main/java/jpuppeteer/GenMojo.java:600-620 | Every file a loop writes has any property that every iteration's files have. |
| Traces.CollectValues | src/main/java/jpuppeteer/GenMojo.java:600-620 | A successful collecting loop yields one value per element, in order. |
| Traces.PutFoldUnique | src/main/java/jpuppeteer/GenMojo.java:246-258 | The event map built by the loop has unique keys. |
| Traces.PutFoldHasKey | src/main/java/jpuppeteer/GenMojo.java:246-258 | Every event the successful loop visits has its key in the map. |
| Traces.PutFoldKeyFrom | src/main/java/jpuppeteer/GenMojo.java:246-258 | Every key in the map comes from some visited event. |
| Traces.PutFoldInOrder | src/main/java/jpuppeteer/GenMojo.java:246-258 | With distinct keys, the map holds each step's entry at the step's position. |
| Traces.PutAllFoldUnique | src/main/java/jpuppeteer/GenMojo.java:63-75 | The merged event map over all domains has unique keys. |
| Traces.PutAllFoldHasKey | src/main/java/jpuppeteer/GenMojo.java:63-75 | Every key of a domain's event map is in the merged map. |
| Traces.PutAllFoldKeyFrom | src/main/java/jpuppeteer/GenMojo.java:63-75 | Every key in the merged map comes from some domain's event map. |
| Traces.ResolveTrace | src/main/java/jpuppeteer/GenMojo.java:561-575 | `getType` writes at most one file, and nothing when it fails. |
| Traces.ResolveTraceEmitsEnum | src/main/java/jpuppeteer/GenMojo.java:561-575 | The one file `getType` writes is the synthesized enum, in the current domain's constant package. |
| Traces.PropertiesTraceEmitsEnums | src/main/java/jpuppeteer/GenMojo.java:600-620 | `createObject`'s first loop writes only enums its properties synthesize: at most one per property, each in the current domain's constant package. |
| Traces.PropertyTraceField | src/main/java/jpuppeteer/GenMojo.java:600-620 | A property becomes a field typed by its resolution and named by `FieldName`. A property without a name fails. |
| Traces.TypeTraceShape | src/main/java/jpuppeteer/GenMojo.java:428-465 | An enum writes exactly its enum, in its constant package. A successful object ends with its class, in its entity package. Any other type writes nothing. |
| Traces.TypeTraceObjectFiles | src/main/java/jpuppeteer/GenMojo.java:595-620 | For an object, every file before its class (all its files, when it fails) is what its first property loop writes. That is at most one enum per property, each in the current domain's constant package. |
| Traces.CommandTraceMethod | src/main/java/jpuppeteer/GenMojo.java:337-400 | A successful command yields a method named after it that sends `<domain>.<command>`. It returns `Future<Response>` with return values and a plain `Future` without. Its request class exists exactly when the command has parameters, and its response class exactly when it has return values, and both are the synthesized classes. |
| Traces.DomainClassTraceWrapper | src/main/java/jpuppeteer/GenMojo.java:263-411 | A successful `createCommand` ends with the domain wrapper class over the connection. Its method i is the method of command i, named after it and sending its wire id. |
| Traces.EventTraceEntry | src/main/java/jpuppeteer/GenMojo.java:246-258 | An event's entry is keyed by its wire id. With parameters, the entry carries the event's synthesized payload class. Without parameters, the entry has no payload and nothing is written. |
| Generation.Generator.constructor | src/main/java/jpuppeteer/GenMojo.java:38 | A fresh generator has an empty registry and has written nothing. |
| Generation.Generator.WriteFile | src/main/java/jpuppeteer/GenMojo.java:93-104 | Appends exactly the one file and leaves the registry unchanged. |
| Generation.Generator.CreateEnumInterface | src/main/java/jpuppeteer/GenMojo.java:106-131 | Writes exactly the marker interface. |
| Generation.Generator.CreateEnum | src/main/java/jpuppeteer/GenMojo.java:467-530 | Builds, in its loop, the enum body with one case per value. |
| Generation.Generator.EmitEnum | src/main/java/jpuppeteer/GenMojo.java:458-464 | Writes exactly the enum's file in its package. |
| Generation.Generator.GetType | src/main/java/jpuppeteer/GenMojo.java:532-593 | Returns `Resolve`'s result and writes the synthesized enum, if any, and nothing else. |
| Generation.Generator.ResolveField | src/main/java/jpuppeteer/GenMojo.java:600-620 | One iteration of the first property loop: writes and returns what `PropertyTrace` says. |
| Generation.Generator.ResolveFields | src/main/java/jpuppeteer/GenMojo.java:600-620 | The first property loop: writes and returns what `PropertiesTrace` says, stopping at the first failure. |
| Generation.Generator.FullConstructor | src/main/java/jpuppeteer/GenMojo.java:627-649 | Reports whether some property is optional, and builds the full constructor over all fields. |
| Generation.Generator.DefaultsConstructor | src/main/java/jpuppeteer/GenMojo.java:656-691 | Builds the constructor over the required fields that sets the optional ones to null. |
| Generation.Generator.CreateObject | src/main/java/jpuppeteer/GenMojo.java:595-694 | Writes the properties' synthesized enums, and on success returns `ObjectBodyOf` over the resolved fields. |
| Generation.Generator.CreateType | src/main/java/jpuppeteer/GenMojo.java:428-465 | Writes exactly what `TypeTrace` says and returns its outcome. |
| Generation.Generator.CreateCommandMethod | src/main/java/jpuppeteer/GenMojo.java:314-401 | One command: writes the Response and then the Request class, and returns the method that `CommandTrace` gives. |
| Generation.Generator.CreateCommand | src/main/java/jpuppeteer/GenMojo.java:263-411 | Writes exactly what `DomainClassTrace` says, ending with the domain wrapper. |
| Generation.Generator.CreateEventEntry | src/main/java/jpuppeteer/GenMojo.java:246-258 | One event: writes its payload class and returns its map entry, as `EventTrace` gives. |
| Generation.Generator.CreateEvent | src/main/java/jpuppeteer/GenMojo.java:240-261 | Writes exactly what `EventsTrace` says, and returns the ordered event map. With no events, the map is empty. |
| Generation.Generator.CreateTypes | src/main/java/jpuppeteer/GenMojo.java:66-70 | Generates the domain's declared types in order, as `TypesTrace` says. |
| Generation.Generator.GenerateDomain | src/main/java/jpuppeteer/GenMojo.java:63-75 | Pass 2 on one domain: its types, then its wrapper, then its events, as `DomainTrace` says. |
| Generation.Generator.CreateEventEnum | src/main/java/jpuppeteer/GenMojo.java:133-238 | Writes exactly the event registry, with one case per map entry, in order. |
| Generation.Generator.RegisterDomain | src/main/java/jpuppeteer/GenMojo.java:55-61 | Puts each of the domain's declared types under `<domain>.<id>`, in order, and writes nothing. |
| Generation.Generator.RegisterTypes | src/main/java/jpuppeteer/GenMojo.java:54-62 | Pass 1: the registry becomes the old registry with every declaration put in order, and nothing is written. |
| Generation.Generator.Execute | src/main/java/jpuppeteer/GenMojo.java:40-83 | The files written, the outcome and the final registry are exactly those of `Run`. |
| Orchestration.RunVersionMismatch | src/main/java/jpuppeteer/GenMojo.java:47-49 | Unequal versions fail before any file is written, and the registry is untouched. |
| Orchestration.RunWritesMarkerFirst | src/main/java/jpuppeteer/GenMojo.java:47-51 | With equal versions, the marker interface is the first file. |
| Orchestration.RunRegistersEveryDeclaredType | src/main/java/jpuppeteer/GenMojo.java:52-62 | Before pass 2, a key is registered exactly when some merged domain declares a type under it. |
| Orchestration.EventsTraceKeys | src/main/java/jpuppeteer/GenMojo.java:240-261 | A domain's event map has unique keys, and holds a key exactly when it is some event's wire id. |
| Orchestration.WireIdInjective | src/main/java/jpuppeteer/GenMojo.java:249-257 | Within one domain, two events share a wire id exactly when they share a name. |
| Orchestration.EventsTraceInOrder | src/main/java/jpuppeteer/GenMojo.java:246-258 | With distinct event names, the map holds one entry per event, in declaration order. Each entry's payload is absent exactly when the event has no parameters. |
| Orchestration.DomainTraceEvents | src/main/java/jpuppeteer/GenMojo.java:63-75 | A domain's pass-2 result is its event map. |
| Orchestration.DomainsTraceEventKeys | src/main/java/jpuppeteer/GenMojo.java:63-75 | The merged event map has unique keys, and holds a key exactly when it is the wire id of some event of some domain. |
| Orchestration.EventsTraceEntries | src/main/java/jpuppeteer/GenMojo.java:240-261 | When a domain's wire ids are distinct, its event map is exactly one entry per event, in declaration order, each carrying its event's payload class. |
| Orchestration.DomainsTraceEntries | src/main/java/jpuppeteer/GenMojo.java:63-75 | When the wire ids of all merged domains are distinct, the merged map is every event's entry, domain by domain in merged order, with each domain's events in declaration order. |
| Orchestration.MergeEntries | src/main/java/jpuppeteer/GenMojo.java:74 | Merging the entries of events whose wire ids are distinct appends them. |
| Orchestration.RunEndsWithEventRegistry | src/main/java/jpuppeteer/GenMojo.java:40-83 | A successful run ends with the event registry under the root package. Its cases have distinct keys, exactly the wire ids of all events. |
| Orchestration.RunEventRegistryCases | src/main/java/jpuppeteer/GenMojo.java:40-83 | When the merged domains' wire ids are distinct, the event registry has one case per event, in merged order. Case c is named by the normalised wire id of the c-th event, is keyed by that id, and carries that event's payload class, or none when the event has no parameters. |
| Orchestration.CommandRequestLast | src/main/java/jpuppeteer/GenMojo.java:355-363 | A successful command with parameters writes its Request class last, in the domain's entity package. |
| Orchestration.CommandResponseFirst | src/main/java/jpuppeteer/GenMojo.java:337-350 | A successful command with return values writes its Response class in the entity package, before the Request class when there is one. |
| Orchestration.SynthesizedClassNames | src/main/java/jpuppeteer/GenMojo.java:342-361 | The qualified names of the Request, Response and event classes: the entity package of the lower-cased domain, then `Capitalize(name)` plus `Request` or `Response`, or the event id. |

## Left out

- **Not modelled:**
  - File I/O: `writeFile` is an append to the sequence of written files. Replacing an
    existing file of the same name on disk is not modelled.
  - JSON decoding (`readProtocol`): the model starts from decoded documents.
  - Maven plumbing: mojo parameters and the wrapping of exceptions into
    `MojoExecutionException`.
  - The byte-exact Java text: descriptions, imports, annotations, indentation,
    experimental and deprecated flags, and `hashCode`.
  - The runtime behaviour of the generated code.
- **Simplified:**
  - Case mapping is ASCII only. Java's Unicode case mapping and the default locale of
    `toLowerCase`/`toUpperCase` are not modelled.
  - The static, volatile `Type.pkg` is passed to every function as the root package
    parameter.
  - `null` and empty ids and lists are not told apart. A null event or command list counts
    as empty, and so does a null `commands` list, where the source would throw a
    `NullPointerException`.
  - A `$ref` chain that comes back to a key it already followed is reported as
    `CyclicReference`. The source recurses until the stack overflows.
  - A null kind, where `switch (prop.type)` would throw a `NullPointerException`, is
    reported as the same `UnknownKind` error as the `default` branch.
  - A named property or items spec that no domain owns, where `getPackage` would throw a
    `NullPointerException` on `domain.domain`, is reported as `MissingDomain`.
- **How parts of the source are modelled:**
  - `getType` is split into the pure `Resolver.Resolve` and the method
    `Generation.Generator.GetType`, which writes the enum that `Resolve` synthesized. A nested
    `createType` of a synthesized enum only ever writes that enum.
  - `createObject`'s `HashMap<Type, String>` cache is keyed by object identity. The model
    keeps one resolution per property, by position, which is what the cache achieves.
  - `Schema.Find` matches strings that are already decoded. Its null result is the model's
    `None` kind.
- **Weaker statements:**
  - Orchestration.DomainsTraceEntries and Orchestration.RunEventRegistryCases: the entry
    order and payloads of the merged map are stated only when all wire ids are distinct.
    Wire ids are `<domain>.<event>`, so they collide only when a domain name or an event name
    within a domain repeats. The protocol documents do not do this. With a collision, `putAll`
    keeps the first entry's position and takes the last payload. That is stated per put by
    `Emit.Put` and `Emit.PutAllLastWins`, not for the run as a whole.
  - Orchestration.DomainsTraceEventKeys: states only the keys of the merged map, but it holds
    with or without collisions.
  - Orchestration.EventsTraceInOrder: requires the domain's event names to be distinct.
    With a repeated name, the later payload overwrites the earlier one in place, and that is
    stated only by `Emit.Put`.
  - Text.NormalizeIdentCollides: the generated enum would then have two constants of the
    same name. The model records the collision but does not model the Java compiler
    rejecting the generated file.
