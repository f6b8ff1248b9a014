# gobridge core, modelled in Dafny

gobridge reads a Go API definition and generates code from it. It produces:
- a Go HTTP server that wraps every API method in a JSON handler, behind authorisation checks;
- a Go HTTP client;
- an Angular TypeScript service, together with the interfaces and enums that service uses.

This project models the core of that pipeline as pure functions and proves properties about them.

- **Reading a Go file** (`Reader`, `reader/reader.go`). The syntax tree that Go's parser returns is the `GoAst` data model. The model covers:
  - the type string of an expression, and its read-back;
  - the two signature maps of an interface method, which skip `context` and `error` kinds;
  - the property map of a struct;
  - the walk over a file's type declarations;
  - the local imports the walk follows.
- **Generating the TypeScript description** (`Generator`, `generator/generator.go`):
  - the Go-to-TypeScript type mapping (`switchToTypescriptType`) and the predeclared-type test (`isBuiltInType`);
  - how `TSClient` assembles the service: method names, request and response types, and schema types.
- **The template helpers** (`TemplateFuncs`, `GoStrings`, `Assoc`):
  - the `ToCamelCase` template function, and the panic it raises on the empty string;
  - the `range`-with-separator idiom;
  - text/template visiting map keys in ascending order;
  - the Go `strings` functions the code relies on;
  - map assignment in a loop.
- **The server template** (`ServerTemplate`, `templates/server.go`):
  - the endpoint constants and `Endpoint.Path`;
  - the `Wrap` middleware and `checkAuth`;
  - the status codes of a generated handler;
  - the rendered API call, the response assignment and the request/response envelope structs.
- **The Go client template** (`GoClientTemplate`, `templates/goclient.go`): the signature, the sorted request literal, the path, the error returns and the final return. The generated method is modelled as a list of lines, and the text read back line by line gives exactly those lines.
- **The TypeScript template** (`TsTemplate`, `templates/ts.go`): the class and its methods, the interfaces and the enums. The file is again a list of lines that reads back exactly.

Rendered text is modelled as a sequence of lines. `{{-` trims the whitespace before an action, and the model keeps that, so the lines are exactly the ones the template writes. A function the template calls that panics (`ToCamelCase` on `""`) makes `Execute` fail, and the model turns that into a `Failed` result.

Some things the program depends on are not modelled. They appear as function-typed parameters instead:
- the authorisation predicates;
- the API, the request-body read and the JSON encoder and decoder inside a handler;
- the recursive reading of an imported directory.

## Model

| member | source | states |
|---|---|---|
| Reader.TypeString | reader/reader.go:180-195 | An expression of no handled kind has the empty type string. For a well-formed tree, the string is empty only in that case, starts with `[]` exactly for a slice, and starts with `map[` exactly for a map. |
| Reader.TypeStringIgnoresQualifiers | reader/reader.go:184-185 | A qualified name `pkg.Name` contributes only `Name`: the string equals that of the tree with every qualifier erased. |
| Reader.ParseTypeString | reader/reader.go:180-195 | Round trip: reading a well-formed tree's type string back gives the tree with qualifiers erased, and the text after it is left untouched. |
| Reader.TypeStringInjective | reader/reader.go:180-195 | Two well-formed trees with the same type string differ at most in their package qualifiers. |
| Reader.ParseVariable | reader/reader.go:171-178 | The kind is the type string. The name is the field's first name, or the type string itself for an unnamed field. |
| Reader.RecordFields | reader/reader.go:148-156 | The keys are exactly the names of the fields whose kind is neither `context` nor `error` in any letter case. Each key holds the kind of its last such field. No recorded kind is `context` or `error`. |
| Reader.RecordFieldsCorrect | reader/reader.go:148-166 | Running the loop's assignments in order on an empty map gives a map that meets the description above. |
| Reader.RecordedKeys | reader/reader.go:148-156 | The loop's map has a key exactly when some kept field has that name. |
| Reader.RecordedValues | reader/reader.go:155 | When several kept fields share a name, the last one decides the value. |
| Reader.RecordedKinds | reader/reader.go:150-153 | The loop never records a `context` or `error` kind. |
| Assoc.Assign | reader/reader.go:148-156 | After a sequence of map assignments, the map holds the old keys plus the assigned ones. An assigned key holds the value of its last assignment, and every other key keeps its old value. |
| Assoc.AssignAppend | reader/reader.go:148-166 | Running two runs of assignments one after the other is the same as running their concatenation. |
| Reader.CheckFunctionSignature | reader/reader.go:143-169 | With a missing result list read as an empty one, the name is empty, and the parameter and result maps each meet the `RecordFields` description. |
| Reader.CheckFunctionSignatureAsWritten | reader/reader.go:158 | As written, the function fails exactly when the result list is nil. Otherwise it returns the same signature as the corrected function. |
| Reader.ListInterfaceMethodsAsWritten | reader/reader.go:125-141 | As written, listing an interface fails exactly when one of its methods declares no results. Otherwise it lists what the corrected reading lists. |
| Reader.MethodWithoutResults | reader/reader.go:143-169 | For `Ping(ctx context.Context)` with no results, the code as written fails, while the corrected reading gives two empty maps. |
| Reader.MethodSignature | reader/reader.go:135-136 | A method's signature carries the method's name and the maps `CheckFunctionSignature` computes. |
| Reader.ListInterfaceMethods | reader/reader.go:125-141 | An interface yields at most one signature per entry. |
| Reader.ListInterfaceMethodsAppend | reader/reader.go:128-140 | The signatures of two runs of entries placed together are the signatures of the first followed by those of the second. |
| Reader.EmbeddedSkipped | reader/reader.go:130-133 | An embedded interface, which is not a function type, contributes no signature wherever it appears. |
| Reader.ListInterfaceMethodsInOrder | reader/reader.go:129-138 | An interface made only of methods yields one signature per method, in declaration order, each carrying its method's name. |
| Reader.PropertyStep | reader/reader.go:94-113 | A field with an unhandled type records nothing. Otherwise its first name is recorded with its type string. |
| Reader.ListStructProperties | reader/reader.go:92-116 | The function fails exactly when some field has no name, because `Names[0]` panics on it. Otherwise the keys are exactly the first names of fields whose type is handled, and each key holds the type string of its last such field. |
| Reader.VisitTypeSpec | reader/reader.go:44-54 | Unexported names and declarations that are neither structs nor interfaces change nothing. An exported struct replaces only its own entry in `data` and fails exactly when `ListStructProperties` fails. An exported interface replaces only its own entry in `fs`, with the corrected method listing. |
| Reader.VisitTypeSpecs | reader/reader.go:42-54 | Walking a file's declarations in order fails exactly when one of them is an exported struct with an unnamed field. |
| Reader.VisitTypeSpecsFrame | reader/reader.go:42-54 | Walking a file's declarations leaves the entries of every name the file does not declare unchanged. |
| Reader.LastStructWins | reader/reader.go:47-49 | The last exported struct declaration of a name decides its property map. |
| Reader.ImportDirectory | reader/reader.go:55-62 | An import is followed exactly when its quoted path contains the module name. The directory read is the unquoted path without its first segment, and it contains no quote. |
| Reader.LocalImportDirs | reader/reader.go:55-62 | The walk descends into a directory exactly when some import of the file leads to it, and into at most one directory per import. |
| Reader.LocalImportDirectory | reader/reader.go:60-62 | The import `"<module>/<rest>"` leads to directory `<rest>`. |
| Reader.RemoveAllAppend | reader/reader.go:60 | Removing the quotes from two texts placed together removes them from each in turn, so the other runes keep their order. |
| Reader.LoadDirs | reader/reader.go:64-79 | Reading the dependency directories in turn gives back the declarations unchanged when there is none, stops with a failure when the first load fails, and succeeds whenever no load can fail. |
| Reader.VisitFile | reader/reader.go:30-82 | A file fails when reading its dependencies fails. Once they are read, it fails exactly when one of its own declarations is an exported struct with an unnamed field, and the names it does not declare keep what the dependencies recorded. |
| Reader.FileOverridesDependencies | reader/reader.go:42-82 | A file's imports are read before its own declarations, so the file's struct overrides a dependency's struct of the same name, and names the file does not declare keep what the dependencies recorded. |
| Generator.IsBuiltInType | generator/generator.go:84-95 | The predeclared names are exactly `bool`, the textual names and the numeric names. |
| Generator.NonPrimitive | generator/generator.go:113-127 | A slice `[]T` becomes `T[]`, unless `T` starts with `map`, in which case it becomes `any`. Any other name starting with `map` becomes `any`. Every other name is kept as it is. |
| Generator.ToTypescript | generator/generator.go:97-128 | `bool` maps to `boolean`, `Time` maps to `Date`, and every other name that is not predeclared takes the default branch. |
| Generator.PredeclaredMapped | generator/generator.go:99-110 | Textual predeclared names map to `string` and numeric ones to `number`. |
| Generator.BuiltInsArePrimitive | generator/generator.go:84-110 | Every name `isBuiltInType` accepts maps to a TypeScript primitive. |
| Generator.DefaultBranchIffNotBuiltIn | generator/generator.go:84-113 | The switch reaches its default branch exactly when the name is not predeclared and is not `Time`. |
| Generator.DateOnlyFromTime | generator/generator.go:111-126 | The result is `Date` exactly when the input is `Time` or already `Date`. |
| Generator.SliceElementNotMapped | generator/generator.go:117-120 | `[]T` becomes `T[]` with `T` itself not translated, so `[]int` gives `int[]`. |
| Generator.SliceOfMapIsAny | generator/generator.go:117-125 | A slice of maps becomes `any`. |
| Generator.ToTypescriptIdempotent | generator/generator.go:97-128 | Mapping twice is mapping once, for every name that is not a nested slice. |
| Generator.NestedSliceNotIdempotent | generator/generator.go:117-120 | `[][]int` maps to `[]int[]`, which maps again to `int[][]`. |
| Generator.PrimitivesFixed | generator/generator.go:97-128 | `string`, `boolean`, `number`, `Date` and `any` are fixed points of the mapping. |
| Generator.NamedFixed | generator/generator.go:113-126 | A name that is not predeclared, is not `Time`, and starts with neither `[` nor `m` is kept. |
| Generator.SliceResultFixed | generator/generator.go:117-126 | A produced `T[]` maps to itself. |
| Generator.MapFields | generator/generator.go:30-35 | The translated field map has the same keys, and each value is the translated Go kind. |
| Generator.ServiceMethods | generator/generator.go:39-41 | Only methods of the visited services are listed, and a single service lists exactly its own methods. |
| Generator.ServiceMethodsAppend | generator/generator.go:39-41 | Visiting two runs of services one after the other lists the methods of the first run and then those of the second. |
| Generator.ServiceMethodsAt | generator/generator.go:39-41 | The methods of service `i`, in their own order, come right after those of the services visited before it and right before those of the services after it. |
| Generator.MethodTypes | generator/generator.go:44-55 | Method `k` contributes `Request<Name>` with its parameters at position `2k` and `Response<Name>` with its results at `2k+1`, and there are no other types. |
| Generator.SchemaTypes | generator/generator.go:59-66 | One schema type per raw type, in iteration order, each with its translated fields. |
| Generator.TSClient | generator/generator.go:29-66 | The service name is the last service iterated, or empty when there is none. The types are two per method (request, then response, in method order) followed by one per raw type. The schema types are exactly the raw types with translated fields. |
| Generator.SchemaTypesExact | generator/generator.go:59-66 | Every schema type comes from a raw type with its translated fields, and every raw type appears. |
| Generator.SchemaTypesIndependentOfOrder | generator/generator.go:59-66 | The set of schema types does not depend on the order in which the map is iterated. |
| TemplateFuncs.Camel | templates/server.go:42-46 | The result has the same length, its first rune is upper-cased, and the rest is unchanged. |
| TemplateFuncs.ToCamelCase | templates/ts.go:31-35 | The function fails exactly on the empty string, where `ls[0]` panics. Otherwise it gives `Camel`. |
| TemplateFuncs.CamelIdempotent | templates/server.go:42-46 | Camel-casing twice is camel-casing once. |
| TemplateFuncs.CamelSameLowerCase | templates/ts.go:31-35 | Camel-casing does not change the lower-cased name. |
| TemplateFuncs.CamelOfExported | templates/server.go:42-46 | A name that does not start with a lower-case letter is kept. |
| TemplateFuncs.CamelAll | templates/server.go:212 | Camel-casing a list fails exactly when the list holds an empty name. Otherwise it camel-cases each name in place. |
| TemplateFuncs.RangeSepIsJoin | templates/goclient.go:39 | `range` with `{{if $key}}, {{end}}` writes the items joined by `, `. |
| TemplateFuncs.PrefixEachAfterFirst | templates/goclient.go:30 | A fixed first item followed by `, item` for each item is the join of all of them. |
| GoStrings.TrimPrefix | generator/generator.go:118 | The prefix, when present, followed by the result is the input. Without the prefix, the input is kept. |
| GoStrings.ToLower | templates/ts.go:30 | Same length, every rune lower-cased. |
| GoStrings.TrimSpace | templates/server.go:156 | The result is a contiguous slice of the input, everything cut is white space, and the result neither starts nor ends with white space. |
| GoStrings.TrimSpaceIdempotent | templates/server.go:156 | Trimming twice is trimming once. |
| GoStrings.RemoveAll | reader/reader.go:60 | The result has no occurrence of the removed rune and holds every other rune of the input as often as the input does. It is the input itself when the rune did not occur. |
| GoStrings.Split | reader/reader.go:61 | At least one part, none containing the separator, every rune taken from the input. |
| GoStrings.JoinSplit | reader/reader.go:61-62 | Joining the parts of a split with the separator gives back the input. |
| GoStrings.SplitJoin | reader/reader.go:61-62 | Splitting a join of separator-free parts gives back the parts. |
| GoStrings.SplitNewlineEach | templates/server.go:170-179 | Lines each written after a newline split back into the lines, after an empty first part. |
| GoStrings.SortedKeys | templates/goclient.go:32-34 | Ranging over a map visits each key exactly once, in strictly ascending byte order. |
| GoStrings.SortedKeysUnique | templates/goclient.go:32-34 | That order is the only strictly ascending enumeration of the keys. |
| GoStrings.RangeMap | templates/goclient.go:32-34 | One line per entry, and every entry has its line. |
| GoStrings.RangeMapInKeyOrder | templates/ts.go:93-95 | Line `i` belongs to the `i`-th smallest key. |
| ServerTemplate.EndpointConstants | templates/server.go:88-93 | Path `i` gets the constant `<Camelcase>Endpoint = i`, and `AllEndpoints` is the number of paths. |
| ServerTemplate.EndpointValuesDistinct | templates/server.go:88-93 | No two endpoint constants share a value. |
| ServerTemplate.SwitchFirstMatch | templates/server.go:96-105 | A Go `switch` takes the first case equal to the value. |
| ServerTemplate.EndpointPath | templates/server.go:95-106 | `AllEndpoints` gives `**`, endpoint `i` gives `/<lowercase>`, and any other value gives the empty path. |
| ServerTemplate.CheckAuth | templates/server.go:155-168 | The check allows exactly when the predicate grants the trimmed token. A refusal is `unauthorised` with 401. An error is 401 with `no authorization token present`, after `unauthorised` has already been written. |
| ServerTemplate.RefusalShape | templates/server.go:155-168 | Every refusal answers 401 with one of the two bodies above. |
| ServerTemplate.Wrap | templates/server.go:114-153 | An OPTIONS request is answered 200 with no check run. Any other request is checked by the basic check first, runs at most one more check, and is answered 401 whenever the wrapper answers it itself. |
| ServerTemplate.WrapBasicFirst | templates/server.go:124-128 | The basic check always runs first, and when it refuses, nothing else runs and the answer is 401. |
| ServerTemplate.WrapAllEndpointsOverrides | templates/server.go:130-137 | When an `AllEndpoints` check is configured, per-route checks never run and the endpoint makes no difference. |
| ServerTemplate.WrapUnconfiguredRoute | templates/server.go:138-149 | Without an `AllEndpoints` check or a check for this route, only the basic check runs. |
| ServerTemplate.WrapDispatchIff | templates/server.go:114-153 | The handler runs exactly when the verb is not OPTIONS, the basic check grants, and the `AllEndpoints` check grants, or, when that is absent, the route's check (if any) grants. |
| ServerTemplate.WrapRefusals | templates/server.go:124-149 | Every request `Wrap` answers itself, other than OPTIONS, is a 401 with one of the two refusal bodies. |
| ServerTemplate.WrapSeesTrimmedToken | templates/server.go:156 | Two requests whose `Authorization` headers trim to the same token are treated alike. |
| ServerTemplate.CheckAuthSeesTrimmedToken | templates/server.go:156-157 | The check depends only on the trimmed header. |
| ServerTemplate.Handle | templates/server.go:192-235 | A handler answers 200, 400 or 500. It answers 400 exactly when reading or decoding the body fails. Otherwise it calls the API once, with the trimmed token and the decoded request. It answers 500 exactly when that call or the encoding of its response fails, and a 200 body is the encoded response. |
| ServerTemplate.RenderApiCall | templates/server.go:212 | Rendering fails exactly when a parameter name is empty. |
| ServerTemplate.ApiCallShape | templates/server.go:212 | The results joined, then ` = ` for exactly one result and ` := ` otherwise, then `api.<Method>(ctx, req.<Param>…)` with camel-cased parameters. |
| ServerTemplate.TargetsAsWritten | templates/server.go:220 | As written, each response parameter is camel-cased, so the list fails exactly when some parameter is empty. |
| ServerTemplate.ResponseAssignAsWritten | templates/server.go:220 | As written, the response assignment fails exactly when a response parameter is empty. |
| ServerTemplate.EmptyResponseParamFails | templates/server.go:220 | A handler with an empty response parameter makes the template fail. |
| ServerTemplate.Targets | templates/server.go:220 | One target per response parameter: `_` is kept, an empty name writes nothing, and any other name writes `resp.<Camel>`. |
| ServerTemplate.ResponseAssign | templates/server.go:220 | The targets joined, ` = `, then the results joined. |
| ServerTemplate.AssignTargetAgrees | templates/server.go:220 | For a non-empty parameter, the corrected target is what the template writes. |
| ServerTemplate.ResponseAssignAgrees | templates/server.go:220 | Without empty response parameters, the corrected assignment is what the template writes. |
| ServerTemplate.EnvelopeMember | templates/server.go:170-179 | Only single and slice fields get a member, `\t<Camel> <kind>` or `\t<Camel> []<kind>`, with the package prefix when one is set. The member fails exactly when such a field has no name. |
| ServerTemplate.EnvelopeMembers | templates/server.go:170-190 | The envelope fails exactly when some member fails. Otherwise line `j` is the member of the `j`-th declared single or slice field. |
| ServerTemplate.RenderEnvelope | templates/server.go:170-190 | A struct named after the type and its suffix, with each member on its own line. It fails exactly when a member fails. |
| ServerTemplate.HandlerEnvelopes | templates/server.go:169-190 | A handler gets two structs, both named after its `RequestType`: `<RequestType>Request` with the request fields and `<RequestType>Response` with the response fields. |
| ServerTemplate.ResponseVarNamesEnvelope | templates/server.go:181-219 | The handler declares `resp` with the response struct declared for it exactly when its `ResponseType` equals its `RequestType`. |
| ServerTemplate.EnvelopeLines | templates/server.go:170-179 | The struct body read back line by line is exactly the member lines. |
| GoClientTemplate.SignatureLine | templates/goclient.go:30 | `ctx context.Context` and the parameters are joined by `, `, then the results are joined by `, `. |
| GoClientTemplate.RequestEntries | templates/goclient.go:31-35 | One `Key: value,` line per request field, and line `j` belongs to the `j`-th smallest key. |
| GoClientTemplate.RequestLiteral | templates/goclient.go:31-35 | `req := <RequestType> {`, then the field lines in ascending key order, then the closing brace. |
| GoClientTemplate.ErrorReturn | templates/goclient.go:39 | Every error exit returns the `Return` values joined by `, `. |
| GoClientTemplate.UniquePathSegments | templates/goclient.go:42 | The path splits into an empty part, the service and the method, as written. |
| GoClientTemplate.ReturnTarget | templates/goclient.go:60 | `_` is returned as itself, an empty name as nothing, and any other name as `resp.<name>`. |
| GoClientTemplate.ReturnTargets | templates/goclient.go:60 | One return target per response parameter, in order. |
| GoClientTemplate.FinalReturn | templates/goclient.go:60 | `return nil` without response parameters. Otherwise the targets (`_` kept, an empty name written as nothing, any other name as `resp.<name>`) and then `nil`, all joined by `, `. |
| GoClientTemplate.LinesLayout | templates/goclient.go:29-61 | With `n` request fields the method has `n + 30` lines. The signature and the request literal come first, and each of the four steps that can fail (marshal, post, read, decode) is followed at once by the same early return. The final return and the closing brace come last. |
| GoClientTemplate.Render | templates/goclient.go:29-61 | The generated text, read back line by line, is exactly the method's lines after an empty first line. |
| TsTemplate.UrlIsLowerGoPath | templates/ts.go:56 | The TypeScript method posts to the Go client's path, lower-cased. |
| TsTemplate.UrlSegments | templates/ts.go:56 | The URL splits into an empty part, the lower-cased service and the lower-cased method. |
| TsTemplate.UrlExample | templates/ts.go:56 | `Example.HasPermission` posts to `/example/haspermission`. |
| TsTemplate.Header | templates/ts.go:41-50 | The class opens with ten lines, and the eighth declares the class under the service name. |
| TsTemplate.MethodBlock | templates/ts.go:51-59 | A method takes six lines: it takes a `<Method>Request`, returns a `<Method>Response`, and posts the JSON payload to the method's lower-cased URL. |
| TsTemplate.MethodBlocks | templates/ts.go:51-59 | One block per method name, in order. |
| TsTemplate.ClassLines | templates/ts.go:41-60 | The class has ten header lines, six lines per method and a closing brace. Method `k` occupies lines `10+6k` to `15+6k`. |
| TsTemplate.MemberLine | templates/ts.go:71-79 | Unclassified, single and slice fields give `  <Camel>: <kind>;`, with `[]` before the `;` for a slice. Other fields give no line. The line fails exactly when a shown field has an empty name. |
| TsTemplate.ShownFields | templates/ts.go:70-80 | The fields that get a member are exactly the shown ones. |
| TsTemplate.Members | templates/ts.go:70-80 | The member lines fail exactly when some shown field has an empty name. Otherwise there is one line per shown field, in order. |
| TsTemplate.InterfaceLines | templates/ts.go:61-82 | An interface without fields is an empty interface under a lint directive. Otherwise it is the opening line, one member per shown field, and the closing brace, and it fails exactly when a member fails. |
| TsTemplate.InterfacesLines | templates/ts.go:61-83 | The interface section fails exactly when some interface fails. Otherwise it is the lines of each interface, one interface after another in order. |
| TsTemplate.EnumLines | templates/ts.go:85-98 | An enum without constants is `export enum N {}`. Otherwise it is the opening line, one `  K = V,` line per constant in ascending key order, and the closing brace. |
| TsTemplate.FileLines | templates/ts.go:41-99 | The file fails exactly when the interface section fails. Otherwise it is the class, then the interfaces, then the enums in order, then the empty line after the final newline. |
| TsTemplate.Render | templates/ts.go:41-99 | The file fails exactly when its lines fail, and otherwise, read back line by line, is exactly its lines. |

## Left out

- Reading files and directories, and running Go's parser, are left out. The parser's result is the `GoAst` data model. The recursive reading of an imported directory is a function parameter of `Reader.VisitFile`, and its failure stands for the `panic` in `readFile`.
- Where the code's behaviour may look unintended, the model follows the code:
  - the import walk has no depth bound;
  - interfaces from dependencies are recorded too;
  - named non-struct types are ignored;
  - the basic check is always called;
  - slice elements are not re-mapped one by one.
- The `fmt.Println` and `ast.Print` diagnostics for an unhandled field type are left out. They write to standard output and do not change the map.
- Map iteration order in `TSClient` is random in Go. It is a parameter: any enumeration of the keys (`Generator.IsEnumeration`).
- In `TSClient`, `tsdata[name] = fields` aliases the caller's inner maps, so translating fields also changes `rawTypes`. That caller-visible side effect is not modelled.
- The file creation, truncation and opening in `TSClient`, and the `AddTo` writers, are left out (file I/O).
- `reader.TypeSignature` and `templates.TSType` are not defined in the files shown. They are modelled as records with the fields the templates use.
- Letter case is ASCII only. Go's Unicode case mapping is not modelled.
- The CORS headers set by `Wrap` are left out: they never change a status or a body.
- The request context, and the value the handler stores in it, are left out.
- A nil authorisation predicate is left out. Predicates are total functions with three outcomes: granted, refused and errored.
- The handler's failure to write the response body after a 200 is left out: it changes neither the status nor the body already chosen.
- The unused `TSService.modName` and `HttpClient.Type` fields are left out.
- The server template's imports, `New`, `registerHandlers` and `AuthConfig` declarations are left out. They are fixed text with no logic.
- `ioeasy`, `main.go`, `auth`, and the generated example files are not part of this model.
- Reader.ListInterfaceMethods: its own contract states only that there is at most one signature per entry. The order, the skipping of embedded entries and the concatenation law are stated by `Reader.ListInterfaceMethodsInOrder`, `Reader.EmbeddedSkipped` and `Reader.ListInterfaceMethodsAppend`. It follows the corrected reading of a method without results; the panic the code as written raises there is modelled by `Reader.ListInterfaceMethodsAsWritten`.
- Reader.MethodSignature: follows the corrected reading, in which a method without results has an empty result map. The nil-pointer panic of the code as written is modelled only by `Reader.CheckFunctionSignatureAsWritten`.
- Reader.VisitTypeSpec: an exported interface is recorded with the corrected method listing, so its failure condition leaves out the panic for a method without results (see "## Findings"). `Reader.VisitTypeSpecs` and `Reader.VisitFile` build on it and leave out the same panic.
- The response envelope is declared as `<RequestType>Response`, while the handler declares its `resp` as `<ResponseType>Response`. The generated code compiles only when the two names agree. The generator that fills in `RequestType` and `ResponseType` is not part of this model, so `ServerTemplate.ResponseVarNamesEnvelope` states when the names agree and no more.

## Findings

| source | as written | input that shows it | evidently intended | confidence | as-written member | corrected member |
|---|---|---|---|---|---|---|
| reader/reader.go:158 | `fn.Results.List` is read without a nil check, and `go/ast` leaves `Results` nil for a method without results | `interface { Ping(ctx context.Context) }` | a method without results has an empty result map, as `fs.Results` is already made empty on line 145 | high, not executed | Reader.CheckFunctionSignatureAsWritten and Reader.ListInterfaceMethodsAsWritten (shown by Reader.MethodWithoutResults) | Reader.CheckFunctionSignature |
| templates/server.go:220 | every response parameter is piped through `ToCamelCase`, which panics on an empty name, although the `else if $value2` branch is there to write nothing for one | a handler whose `ResponseParams` holds `""` | an empty response parameter writes no target, as in the Go client template on templates/goclient.go:60 | low, not executed | ServerTemplate.ResponseAssignAsWritten (shown by ServerTemplate.EmptyResponseParamFails) | ServerTemplate.ResponseAssign (agreement proved by ServerTemplate.ResponseAssignAgrees) |
