# apivalidator: a Dafny model of the validation core

apivalidator is a desktop tool. The user pastes an OpenAPI 3 or Swagger 2
definition, a JSON payload and a request locator such as `"POST /pets"`. The
tool then reports, field by field, why the payload does not satisfy the
definition. A second command lists every `"<METHOD> <PATH>"` the definition
declares.

This project models the logic that `app.go` itself contains. The libraries
it calls (YAML parsing, document loading, Swagger 2 conversion, routing,
request validation) become parameters of the model. The model covers:

- **Text** (`text.dfy`): Go's `strings.Split` on one character, `strings.Join`,
  ASCII upper-casing, the byte-wise string order, and `sort.Strings`. The sort
  is given as a function that returns the unique sorted permutation.
- **Locator** (`locator.dfy`): `splitPathString`. A locator is accepted exactly
  when it has one space with text on both sides.
- **Dialect** (`dialect.dfy`): `isOpenApiV3` and `isValidApiDefinition`. Both are
  key tests on the top-level document map.
- **Operations** (`operations.dfy`): `getOperations`. It walks the fields of a
  path item and lists the upper-cased names of the non-nil operations, in
  field order.
- **Catalog** (`catalog.dfy`): `loadApiPaths`. It lists one `"<METHOD> <PATH>"`
  line per declared operation. Paths come in ascending byte order, whatever
  order the map yields them in.
- **ErrorTree** (`errortree.dfy`): `getErrors`. It flattens the validator's
  multi-error tree into a map from field locator to messages:
  - a schema error goes to `@body` or `@body.<pointer>`;
  - a parameter error goes to `<in>.<name>`;
  - a nested multi-error is merged in;
  - any other request error about the body goes to `@body`.

  The method is proved equal to an independent reference: the recognised
  leaves in depth-first order, grouped by locator.
- **App** (`app.dfy`): the `Validate` and `LoadPaths` entry points. This covers
  the input guard, the dialect dispatch, locator splitting, URL composition,
  and every way the code stops. It stops in one of three ways:
  - an error dialog followed by nil;
  - a returned value;
  - a crash (`log.Fatal`, a nil index, a nil dereference, a failed type
    assertion).

The code returns nil both after an input-error dialog and after a successful
validation (app.go:80, app.go:148), so by its result alone a valid request
looks like an input error. The model keeps the two apart: a dialog is
`Dialog(message)` and success is `Returned(None)`. `getErrors` itself can return an empty non-nil map
(`Returned(Some(map[]))`) when no error of the multi-error is recognised.
`LoadPaths` has the same shape: `loadApiPaths` returns a nil slice when the
definition declares no operation (app.go:238, 251), so an empty listing looks
like the nil after a dialog; the model returns it as `Returned(None)`.

## Model

| member | source | states |
|---|---|---|
| Text.Split | app.go:307 | `strings.Split` on one character: at least one piece, the pieces joined by the separator give back the input, and no piece contains the separator |
| Text.Join | app.go:159 | `strings.Join`: no parts give the empty string, otherwise the result starts with the first part; `Text.SplitJoin` is its inverse |
| Text.SplitJoin | app.go:307 | splitting a join of separator-free pieces gives back the pieces |
| Text.ToUpperProperties | app.go:288 | upper-casing leaves no lower-case letter, keeps spaces exactly where they were, and is idempotent |
| Text.ToUpper | app.go:288 | `strings.ToUpper` keeps the length and maps every character by ASCII upper-casing |
| Text.LessEqTotalOrder | app.go:244 | the byte-wise order used by `sort.Strings` is reflexive, antisymmetric, transitive and total, and its strict part is irreflexive |
| Text.SortStrings | app.go:244 | `sort.Strings` returns a sorted permutation of its input |
| Text.SortedUnique | app.go:244 | two sorted permutations of the same strings are equal, so the sorted order does not depend on the input order |
| Text.DistinctFromMultiset | app.go:240-243 | a sequence in which every element occurs at most once has no repeated element |
| Locator.SplitPathString | app.go:306-312 | an accepted locator has two non-empty, space-free parts, and method + " " + path rebuilds it |
| Locator.SplitPathStringAccepts | app.go:306-312 | a locator is accepted if and only if it has exactly one space, neither first nor last, and then the parts are the text before and after that space |
| Locator.SplitPathStringOfLocator | app.go:248 | a non-empty, space-free method and path joined by a space split back into that method and path |
| Locator.SplitPathStringExamples | app_test.go:89-91 | `"GET /test"` gives `["GET", "/test"]`; `"GET "` and `" /GET"` are rejected |
| Dialect.IsOpenApiV3 | app.go:295-300 | true exactly when `openapi` is present with a non-nil value; such a document is also a valid definition |
| Dialect.IsValidApiDefinition | app.go:302-304 | false exactly when neither `openapi` nor `swagger` has a non-nil value; a valid document without `openapi` has a non-nil `swagger` |
| Dialect.Classify | app.go:94-108 | a definition is rejected when neither `openapi` nor `swagger` is present; it is OpenAPI 3 exactly when `openapi` is present; it is Swagger 2 exactly when only `swagger` is |
| Dialect.OpenApiV3IsValid | app.go:295-304 | every OpenAPI 3 document is a valid definition; a valid one that is not OpenAPI 3 has `swagger` |
| Dialect.DialectKeys | app.go:295-304 | `swagger` does not affect the OpenAPI 3 test; other keys affect neither test |
| Dialect.DialectExamples | app_test.go:18-21 | the test cases for both predicates, including the empty map (also app_test.go:41-45) |
| Operations.GetOperations | app.go:279-293 | the loop returns the upper-cased names of the declared operation fields, in field order |
| Operations.DeclaredOperationsAppend | app.go:283-290 | the enumeration of a concatenation is the concatenation of the enumerations, so field order is kept |
| Operations.DeclaredOperationsMembers | app.go:283-290 | a name is listed if and only if some non-nil operation field carries it |
| Operations.DeclaredOperationsCount | app.go:283-290 | the result has exactly one entry per non-nil operation field |
| Operations.DeclaredOperationsDistinct | app.go:283-290 | with field names distinct after upper-casing, no method is listed twice |
| Operations.DeclaredOperationsShape | app.go:288 | every listed method is non-empty, space-free and upper case |
| Operations.NewPathItemOperations | app.go:279-293 | for a path item laid out in an assumed order of the eight method fields, the result is the present methods in that layout's order |
| Operations.GetOperationsExamples | app_test.go:65-69 | GET alone, POST alone, none, PATCH alone, and GET with POST give `["GET"]`, `["POST"]`, `[]`, `["PATCH"]` and `["GET", "POST"]` |
| Catalog.CollectPaths | app.go:240-243 | the collected keys are the path keys, each exactly once, in whatever order the map yields them |
| Catalog.ListPaths | app.go:246-250 | the nested loops emit `op + " " + path` for each method of each path, in the given path order |
| Catalog.LoadApiPaths | app.go:237-252 | the result equals the listing over the sorted path keys, whatever the iteration order |
| Catalog.SortedKeys | app.go:240-244 | the sorted keys are strictly ascending and are exactly the path keys |
| Catalog.CatalogueLength | app.go:246-250 | the listing has as many lines as there are declared operations in total |
| Catalog.CatalogueOrder | app.go:246-250 | the lines of each path come after those of all smaller paths and before those of all larger ones |
| Catalog.CatalogueMembers | app.go:246-250 | a line is listed if and only if it is `op + " " + path` for a declared operation of an existing path, so a path without operations contributes nothing |
| Catalog.CatalogueSplitsBack | app.go:248 | for non-empty, space-free paths, every listed line is a locator that splits back into a declared method and an existing path |
| ErrorTree.GetErrors | app.go:151-194 | the loop with its recursive merge returns the recognised leaves in depth-first order, grouped by locator |
| ErrorTree.MergeInto | app.go:178-183 | merging a child map appends each child list after the parent's list for that key, whatever the key order |
| ErrorTree.SchemaField | app.go:157-160 | a schema error's locator starts with `@body`; it is `@body` exactly when the JSON pointer is empty, and otherwise continues with `.` and the dot-joined pointer |
| ErrorTree.ParameterField | app.go:165-166 | a parameter error's locator is the parameter's location, a dot, and its name |
| ErrorTree.ParameterFieldInjective | app.go:164-168 | for dot-free locations, two parameters with the same locator are the same parameter |
| ErrorTree.Merge | app.go:178-183 | key-wise concatenation: every lookup is the parent's list followed by the child's, and the keys are the union |
| ErrorTree.MergeGroup | app.go:178-183 | merging the groups of two leaf lists groups their concatenation |
| ErrorTree.GroupLookup | app.go:161-186 | per locator the map holds exactly that locator's messages, in discovery order and not deduplicated; a key exists only if it has a message |
| ErrorTree.GroupMembers | app.go:161-186 | a message is under a locator if and only if that leaf was found; a locator is a key if and only if some leaf carries it |
| ErrorTree.GroupTotal | app.go:161-186 | summed over the locators, the map holds exactly one message per recognised leaf |
| ErrorTree.DiscoveriesAppend | app.go:153 | leaves of a concatenation are the leaves of each part, left to right |
| ErrorTree.LocatorRules | app.go:156-191 | the rules for a single error: schema error to `@body[.pointer]`; a parameter wins over nesting and body; then a nested multi-error is merged; then a body error goes to `@body`; otherwise nothing |
| ErrorTree.NoLeavesNoIssues | app.go:151-194 | the map is empty exactly when no leaf is recognised, and in particular for unrecognised errors only |
| App.TargetUrl | app.go:117-122 | the request URL is the path preceded by the first server's URL, or by nothing when there is no server |
| App.LoadDefinition | app.go:83-108 | a rejection carries the parse-failure or the no-definition message; otherwise the document parsed and is valid, and the definition is what the loader its dialect selects returned, or that loader failed (also app.go:206-232) |
| App.BuildRequest | app.go:115-133 | it stops only by crashing: with the malformed-locator crash exactly when the locator does not split, with the request crash exactly when `http.NewRequest` fails, with the route crash exactly when `FindRoute` fails, and it sends exactly when both succeed; a sent request is against the given definition, takes method and URL from the two parts, and carries the payload as JSON |
| App.AsSlice | app.go:238 | the listing is nil exactly when no line was appended, and a slice holds exactly the appended lines (also app.go:251) |
| App.Validate | app.go:72-149 | the entry point answers as `App.ValidationReply` does: `App.Prepare` models the checks, loading and request building of app.go:74-133, then the validator's outcome decides, with the issues computed by `getErrors` |
| App.LoadPaths | app.go:196-235 | the entry point answers as `App.PathsReply` does: the checks and loading of app.go:197-232, then the listing computed by `loadApiPaths`, returned as nil when it is empty (app.go:238, 251) |
| App.ValidateGuard | app.go:74-81 | `Validate` answers "Missing input" if and only if some input is empty |
| App.PathsGuard | app.go:197-204 | `LoadPaths` answers "Missing input" if and only if the definition is empty |
| App.PathsDialogs | app.go:196-232 | `LoadPaths` shows a dialog exactly for an empty input or a rejected definition, and its only crash is the loader failure, exactly when an accepted definition does not load |
| App.DialogMessagesDiffer | app.go:78-98 | the dialog messages are pairwise distinct from "Missing input" |
| App.DefinitionRules | app.go:85-108 | parse failure, and neither dialect key, are each the one cause of their dialog; an `openapi` key selects the OpenAPI 3 loader, otherwise Swagger 2 |
| App.SentRequest | app.go:74-133 | a request is sent only for non-empty inputs, a loaded definition and a locator with one inner space, and it is sent against that loaded definition. Its method is the text before the space and its URL is that definition's first server URL, if any, followed by the text after it. Its body is the payload and its content type is JSON |
| App.PrepareSends | app.go:74-142 | the converse of `App.SentRequest`: a request is sent, and reaches the validator, if and only if the inputs are non-empty, the definition loads, the router is built, the locator splits, and the request and route calls succeed |
| App.ValidateDialogs | app.go:74-113 | `Validate` shows a dialog exactly for an empty input or a rejected definition; it ends the process with the loader failure exactly when an accepted definition does not load (app.go:254-274), and with the router failure exactly when the router cannot be built |
| App.ValidateCrashes | app.go:115-133 | after loading and routing, `Validate` crashes on the malformed locator, the failed request construction or the missing route exactly when request building does |
| App.MalformedLocatorCrashes | app.go:115-119 | once the definition is loaded and routed, `Validate` crashes on the nil index if and only if the locator lacks exactly one inner space |
| App.ValidationResults | app.go:134-148 | nil means the validator accepted the request. Issues mean it reported a multi-error, and they hold exactly that tree's recognised leaves. Any other error crashes on the type assertion |
| App.PathsResults | app.go:226-234 | `LoadPaths` returns a slice if and only if the definition loads; the slice is nil if and only if no operation is declared, has one line per declared operation, and holds exactly the declared method/path pairs |
| App.EmptyListingIsNil | app.go:237-252 | a loaded definition that declares no operation makes `LoadPaths` return nil, the same value as after a dialog |

## Left out

- The GUI and host runtime are not modelled: `startup`, `domready`, `runtime.EventsOn`, `runtime.MessageDialog`, `runtime.LogError*` (app.go:21-70). A dialog is modelled only as the message it shows, followed by a nil result.
- YAML and JSON parsing, `openapi3.NewLoader().LoadFromData`, `openapi2conv.ToV3`, `gorillamux.NewRouter`, `router.FindRoute`, `http.NewRequest` and `openapi3filter.ValidateRequest` are library code. They are the fields of `App.Library`, and each is a function of its inputs. Their `log.Fatal` paths are the `Crash` outcomes.
- The parsed document is a map from top-level key to "value is non-nil". Values are not modelled.
- `e.Error()` of each error is taken as an opaque message string. JSON pointers are given as already split into their parts.
- Go reflection in `getOperations` is replaced by an explicit sequence of fields. Each field has a name and is either an operation field that may be nil or a field of another type. The library's `PathItem` field order is not visible here. `Operations.NewPathItem` lays the methods out in an assumed order, GET, PUT, POST, DELETE, OPTIONS, HEAD, PATCH, TRACE. This order agrees with the only ordering the tests pin, GET before POST (app_test.go:69); it is not taken from the library.
- Text.ToUpper: models ASCII upper-casing only. It is exact for the Go field names it is applied to. Go's Unicode case mapping of other letters is not modelled.
- Text.SortStrings: `sort.Strings` is a library call. It is modelled as the unique sorted permutation, not as the library's in-place algorithm.
- Strings are sequences of characters, not UTF-8 bytes. For the valid text handled here, byte order and code-point order agree.
- app.go:171-176 repeats the test of app.go:164-169 and can never run, so it has no counterpart.
- Go map iteration order (app.go:241, app.go:179) is modelled as an arbitrary choice. `Catalog.LoadApiPaths` and `ErrorTree.MergeInto` are proved to return the same result whatever that choice is.
- `log.Fatal` prints and exits, and a nil dereference panics. Both are modelled only as the `Crash` case, without output.
