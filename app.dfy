/**
 The two entry points the desktop front end calls: `Validate`, which checks one
 request payload against a definition and reports the issues per field, and
 `LoadPaths`, which lists the definition's `"<METHOD> <PATH>"` locators. The
 parsing, loading, routing and schema-validation libraries they call are
 parameters (`Library`); dialogs are modelled as the message they show.
 */
module App {
  import opened Wrappers
  import opened Dialect
  import opened Operations
  import opened Catalog
  import opened Locator
  import opened ErrorTree

  const MissingInput: string := "Missing input"
  const UnableToLoad: string := "Unable to load definition"
  const UnableToParse: string := "Unable to parse definition"
  const NoValidDefinition: string := "No valid definition. Definition must contain 'swagger' or 'openApi'"
  const JsonContentType: string := "application/json"

  /** A loaded definition, converted to OpenAPI 3: its server URLs in order and its path table. */
  datatype Api = Api(servers: seq<string>, paths: Paths)

  /** The HTTP request built for validation. */
  datatype Request = Request(verb: string, url: string, body: string, contentType: string)

  /** What request validation reports: success, a multi-error, or an error of another type. */
  datatype Outcome = Passed | Failed(errors: seq<Err>) | FailedOther

  /** The library calls, as functions of what they are given. `None` from a
      loader, and `false` from the router, request or route functions, is the
      error return that the code answers with a fatal log or a crash. */
  datatype Library = Library(
    parse: string -> Option<Document>,
    loadV3: string -> Option<Api>,
    loadV2: string -> Option<Api>,
    routerOk: Api -> bool,
    requestOk: (string, string) -> bool,
    findsRoute: (Api, Request) -> bool,
    validate: (Api, Request) -> Outcome)

  /** Ways the process dies instead of answering: `log.Fatal` after a failed load,
      router construction or route lookup; a nil index on a malformed locator; a
      nil dereference after a failed request construction; a failed type
      assertion when validation reports something other than a multi-error. */
  datatype Failure = LoaderFailed | RouterFailed | MalformedLocator | RequestFailed | RouteNotFound | NotMultiError

  /** An answer to the front end: an error dialog followed by a nil result, a
      returned value (`None` is Go's nil), or no answer at all. */
  datatype Reply<T> = Dialog(message: string) | Returned(value: Option<T>) | Crash(failure: Failure)

  /** The shared first half of both entry points: parse, classify, load. */
  datatype Definition = Rejected(message: string) | Unloadable | Loaded(api: Api)

  /** Parse, classify and load: a rejection carries the parse-failure message
      or the no-definition message, and a loaded definition comes from a valid
      document through the loader its dialect selects. */
  function LoadDefinition(lib: Library, spec: string, parseFailure: string): (d: Definition)
    ensures d.Rejected? ==> d.message == parseFailure || d.message == NoValidDefinition
    ensures !d.Rejected? ==> lib.parse(spec).Some? && IsValidApiDefinition(lib.parse(spec).value)
    ensures d.Loaded? ==>
      (if IsOpenApiV3(lib.parse(spec).value) then lib.loadV3(spec) else lib.loadV2(spec)) == Some(d.api)
    ensures d.Unloadable? ==>
      (if IsOpenApiV3(lib.parse(spec).value) then lib.loadV3(spec) else lib.loadV2(spec)) == None
  {
    match lib.parse(spec)
    case None => Rejected(parseFailure)
    case Some(doc) =>
      match Classify(doc)
      case NoDefinition => Rejected(NoValidDefinition)
      case V3OpenApi => if lib.loadV3(spec).Some? then Loaded(lib.loadV3(spec).value) else Unloadable
      case V2Swagger => if lib.loadV2(spec).Some? then Loaded(lib.loadV2(spec).value) else Unloadable
  }

  /** The request target: the first server's URL followed by the path, or the
      bare path when the definition names no server. */
  function TargetUrl(servers: seq<string>, path: string): (url: string)
    ensures |url| >= |path| && url[|url| - |path|..] == path
    ensures url[..|url| - |path|] == if |servers| > 0 then servers[0] else ""
  {
    if |servers| > 0 then servers[0] + path else path
  }

  /** `Validate` up to the call of the request validator: either it has already
      answered, or it sends this request against this definition. */
  datatype Step = Stop(reply: Reply<Issues>) | Send(api: Api, request: Request)

  function Prepare(lib: Library, spec: string, payload: string, path: string): Step
  {
    if spec == "" || payload == "" || path == "" then Stop(Dialog(MissingInput))
    else
      match LoadDefinition(lib, spec, UnableToLoad)
      case Rejected(message) => Stop(Dialog(message))
      case Unloadable => Stop(Crash(LoaderFailed))
      case Loaded(api) =>
        if !lib.routerOk(api) then Stop(Crash(RouterFailed))
        else BuildRequest(lib, api, payload, path)
  }

  /** Splits the locator and builds and routes the request. It stops only by
      crashing: on a malformed locator exactly when the locator does not split,
      then on the request or the route exactly when that call fails, and it
      sends exactly when both succeed. A sent request is against `api`, takes
      its method and URL from the locator's two parts, and carries the payload
      as JSON. */
  function BuildRequest(lib: Library, api: Api, payload: string, path: string): (s: Step)
    ensures s.Stop? ==> s.reply.Crash?
    ensures s == Stop(Crash(MalformedLocator)) <==> SplitPathString(path).None?
    ensures s.Send? ==>
      && SplitPathString(path).Some? && s.api == api
      && s.request.verb == SplitPathString(path).value[0]
      && s.request.url == TargetUrl(api.servers, SplitPathString(path).value[1])
      && s.request.body == payload && s.request.contentType == JsonContentType
      && lib.requestOk(s.request.verb, s.request.url) && lib.findsRoute(api, s.request)
    ensures SplitPathString(path).Some? ==>
      var verb := SplitPathString(path).value[0];
      var url := TargetUrl(api.servers, SplitPathString(path).value[1]);
      var request := Request(verb, url, payload, JsonContentType);
      && (s == Stop(Crash(RequestFailed)) <==> !lib.requestOk(verb, url))
      && (s == Stop(Crash(RouteNotFound)) <==> lib.requestOk(verb, url) && !lib.findsRoute(api, request))
      && (s.Send? <==> lib.requestOk(verb, url) && lib.findsRoute(api, request))
  {
    match SplitPathString(path)
    case None => Stop(Crash(MalformedLocator))
    case Some(parts) =>
      var url := TargetUrl(api.servers, parts[1]);
      if !lib.requestOk(parts[0], url) then Stop(Crash(RequestFailed))
      else
        var request := Request(parts[0], url, payload, JsonContentType);
        if !lib.findsRoute(api, request) then Stop(Crash(RouteNotFound))
        else Send(api, request)
  }

  /** What `Validate` answers. */
  function ValidationReply(lib: Library, spec: string, payload: string, path: string): Reply<Issues>
  {
    match Prepare(lib, spec, payload, path)
    case Stop(reply) => reply
    case Send(api, request) =>
      match lib.validate(api, request)
      case Passed => Returned(None)
      case Failed(errors) => Returned(Some(Group(Discoveries(errors))))
      case FailedOther => Crash(NotMultiError)
  }

  /** `Validate`: the checks and request construction, then the validator, whose
      multi-error is flattened by `getErrors`. The method exists to run the
      imperative `GetErrors`; `ValidationReply` is the reference the lemmas
      below are about. */
  method Validate(lib: Library, spec: string, payload: string, path: string) returns (reply: Reply<Issues>)
    ensures reply == ValidationReply(lib, spec, payload, path)
  {
    match Prepare(lib, spec, payload, path) {
      case Stop(r) =>
        reply := r;
      case Send(api, request) =>
        match lib.validate(api, request) {
          case Passed =>
            reply := Returned(None);
          case Failed(errors) =>
            var issues := GetErrors(errors);
            reply := Returned(Some(issues));
          case FailedOther =>
            reply := Crash(NotMultiError);
        }
    }
  }

  /** The slice `loadApiPaths` returns: it starts as a nil slice and stays nil
      when nothing is appended. */
  function AsSlice(entries: seq<string>): (r: Option<seq<string>>)
    ensures r.None? <==> entries == []
    ensures SliceLines(r) == entries
  {
    if entries == [] then None else Some(entries)
  }

  /** The lines a returned slice holds; nil holds none. */
  function SliceLines(slice: Option<seq<string>>): seq<string>
  {
    if slice.Some? then slice.value else []
  }

  /** What `LoadPaths` answers. */
  ghost function PathsReply(lib: Library, spec: string): Reply<seq<string>>
  {
    if spec == "" then Dialog(MissingInput)
    else
      match LoadDefinition(lib, spec, UnableToParse)
      case Rejected(message) => Dialog(message)
      case Unloadable => Crash(LoaderFailed)
      case Loaded(api) => Returned(AsSlice(Catalogue(api.paths)))
  }

  /** `LoadPaths`: the checks and loading, then `loadApiPaths`. The method exists
      to run `LoadApiPaths` itself; `PathsReply` is the reference the lemmas
      below are about. */
  method LoadPaths(lib: Library, spec: string) returns (reply: Reply<seq<string>>)
    ensures reply == PathsReply(lib, spec)
  {
    if spec == "" {
      return Dialog(MissingInput);
    }
    match LoadDefinition(lib, spec, UnableToParse) {
      case Rejected(message) =>
        reply := Dialog(message);
      case Unloadable =>
        reply := Crash(LoaderFailed);
      case Loaded(api) =>
        var entries := LoadApiPaths(api.paths);
        reply := Returned(AsSlice(entries));
    }
  }

  // ---------------------------------------------------------------------------
  // Properties.

  /** The definition is rejected with a dialog exactly when it does not parse or
      carries neither marker key; otherwise it is loaded by the OpenAPI 3 loader
      when it has an `openapi` key (whatever else it has) and converted from
      Swagger 2 when it does not. */
  lemma DefinitionRules(lib: Library, spec: string, parseFailure: string)
    requires parseFailure != NoValidDefinition
    ensures LoadDefinition(lib, spec, parseFailure) == Rejected(parseFailure) <==> lib.parse(spec).None?
    ensures LoadDefinition(lib, spec, parseFailure) == Rejected(NoValidDefinition) <==>
      lib.parse(spec).Some? && !IsValidApiDefinition(lib.parse(spec).value)
    ensures LoadDefinition(lib, spec, parseFailure).Loaded? ==>
      lib.parse(spec).Some? && IsValidApiDefinition(lib.parse(spec).value) &&
      Some(LoadDefinition(lib, spec, parseFailure).api) ==
        (if IsOpenApiV3(lib.parse(spec).value) then lib.loadV3(spec) else lib.loadV2(spec))
  {
  }

  /** "Missing input" differs from the three other dialog messages. */
  lemma DialogMessagesDiffer()
    ensures MissingInput != UnableToLoad && MissingInput != UnableToParse && MissingInput != NoValidDefinition
  {
    assert |MissingInput| < |UnableToLoad| < |UnableToParse| < |NoValidDefinition|;
  }

  /** `Validate` answers "Missing input" exactly when an input is empty, and
      then consults no library at all. */
  lemma ValidateGuard(lib: Library, spec: string, payload: string, path: string)
    ensures ValidationReply(lib, spec, payload, path) == Dialog(MissingInput) <==>
      spec == "" || payload == "" || path == ""
  {
  }

  /** `LoadPaths` answers "Missing input" exactly when the definition is empty. */
  lemma PathsGuard(lib: Library, spec: string)
    ensures PathsReply(lib, spec) == Dialog(MissingInput) <==> spec == ""
  {
  }

  /** A request is sent only for non-empty inputs and a locator with one inner
      space: its method is the text before that space, its URL the server
      prefix followed by the text after it, its body the payload and its
      content type JSON. */
  lemma SentRequest(lib: Library, spec: string, payload: string, path: string)
    ensures Prepare(lib, spec, payload, path).Send? ==>
      var s := Prepare(lib, spec, payload, path);
      && spec != "" && payload != "" && OneInnerSpace(path)
      && LoadDefinition(lib, spec, UnableToLoad).Loaded? && s.api == LoadDefinition(lib, spec, UnableToLoad).api
      && lib.routerOk(s.api) && lib.findsRoute(s.api, s.request)
      && s.request.body == payload && s.request.contentType == JsonContentType
      && (exists p :: path == s.request.verb + " " + p && ' ' !in p && s.request.url == TargetUrl(s.api.servers, p))
  {
    if Prepare(lib, spec, payload, path).Send? {
      var s := Prepare(lib, spec, payload, path);
      var parts := SplitPathString(path).value;
      SplitPathStringAccepts(path);
      assert path == s.request.verb + " " + parts[1];
    }
  }

  /** The converse of `SentRequest`: when the inputs are non-empty, the
      definition loads and is routed, the locator splits and the request and
      route calls succeed, that request is sent against that definition. */
  lemma PrepareSends(lib: Library, spec: string, payload: string, path: string)
    ensures var s := Prepare(lib, spec, payload, path);
      var d := LoadDefinition(lib, spec, UnableToLoad);
      s.Send? <==>
        && spec != "" && payload != "" && path != ""
        && d.Loaded? && lib.routerOk(d.api) && SplitPathString(path).Some?
        && var verb := SplitPathString(path).value[0];
           var url := TargetUrl(d.api.servers, SplitPathString(path).value[1]);
           lib.requestOk(verb, url) && lib.findsRoute(d.api, Request(verb, url, payload, JsonContentType))
  {
  }

  /** `Validate` shows a dialog exactly for an empty input or a rejected
      definition; a definition that parses and has a marker key but does not
      load ends the process instead, and so does a router that cannot be built. */
  lemma ValidateDialogs(lib: Library, spec: string, payload: string, path: string)
    ensures var r := ValidationReply(lib, spec, payload, path);
      var d := LoadDefinition(lib, spec, UnableToLoad);
      var inputs := spec != "" && payload != "" && path != "";
      && (r.Dialog? <==> !inputs || d.Rejected?)
      && (r == Crash(LoaderFailed) <==> inputs && d.Unloadable?)
      && (r == Crash(RouterFailed) <==> inputs && d.Loaded? && !lib.routerOk(d.api))
  {
  }

  /** After loading and routing, `Validate` crashes exactly as building the
      request does: malformed locator, failed request construction, route not
      found. */
  lemma ValidateCrashes(lib: Library, spec: string, payload: string, path: string, f: Failure)
    requires f == MalformedLocator || f == RequestFailed || f == RouteNotFound
    ensures var r := ValidationReply(lib, spec, payload, path);
      var d := LoadDefinition(lib, spec, UnableToLoad);
      r == Crash(f) <==>
        && spec != "" && payload != "" && path != "" && d.Loaded? && lib.routerOk(d.api)
        && BuildRequest(lib, d.api, payload, path) == Stop(Crash(f))
  {
  }

  /** `LoadPaths` shows a dialog exactly for an empty input or a rejected
      definition, and ends the process exactly when the definition is accepted
      but does not load. */
  lemma PathsDialogs(lib: Library, spec: string)
    ensures PathsReply(lib, spec).Dialog? <==> spec == "" || LoadDefinition(lib, spec, UnableToParse).Rejected?
    ensures PathsReply(lib, spec) == Crash(LoaderFailed) <==>
      spec != "" && LoadDefinition(lib, spec, UnableToParse).Unloadable?
    ensures PathsReply(lib, spec).Crash? ==> PathsReply(lib, spec).failure == LoaderFailed
  {
  }

  /** Once the definition is loaded and routed, a locator without exactly one
      inner space crashes `Validate` (the unchecked nil index), and any other
      locator does not. */
  lemma MalformedLocatorCrashes(lib: Library, spec: string, payload: string, path: string)
    requires spec != "" && payload != "" && path != ""
    requires LoadDefinition(lib, spec, UnableToLoad).Loaded?
    requires lib.routerOk(LoadDefinition(lib, spec, UnableToLoad).api)
    ensures ValidationReply(lib, spec, payload, path) == Crash(MalformedLocator) <==> !OneInnerSpace(path)
  {
    SplitPathStringAccepts(path);
    var api := LoadDefinition(lib, spec, UnableToLoad).api;
    assert Prepare(lib, spec, payload, path) == BuildRequest(lib, api, payload, path);
    assert BuildRequest(lib, api, payload, path) == Stop(Crash(MalformedLocator)) <==> SplitPathString(path).None?;
  }

  /** `Validate` returns the flattened issues exactly when the validator reports
      a multi-error for the request it was sent, nil when the request is valid
      (the same nil also follows every dialog), and crashes on the type
      assertion exactly when the validator reports any other error. */
  lemma ValidationResults(lib: Library, spec: string, payload: string, path: string)
    ensures var r := ValidationReply(lib, spec, payload, path);
      var s := Prepare(lib, spec, payload, path);
      && (r == Returned(None) <==> s.Send? && lib.validate(s.api, s.request) == Passed)
      && (r.Returned? && r.value.Some? <==> s.Send? && lib.validate(s.api, s.request).Failed?)
      && (r == Crash(NotMultiError) <==> s.Send? && lib.validate(s.api, s.request).FailedOther?)
      && (r.Returned? && r.value.Some? ==>
            forall key, message :: message in Lookup(r.value.value, key) <==>
              (key, message) in Discoveries(lib.validate(s.api, s.request).errors))
  {
    var r := ValidationReply(lib, spec, payload, path);
    var s := Prepare(lib, spec, payload, path);
    if r.Returned? && r.value.Some? {
      var d := Discoveries(lib.validate(s.api, s.request).errors);
      forall key, message ensures message in Lookup(Group(d), key) <==> (key, message) in d {
        GroupMembers(d, key, message);
      }
    }
  }

  /** `LoadPaths` returns a slice exactly when the definition loads. The slice
      holds exactly the declared method/path pairs of its path table, one line
      per declared operation, and it is nil (like the nil after a dialog) exactly
      when the table declares no operation. */
  lemma PathsResults(lib: Library, spec: string)
    ensures PathsReply(lib, spec).Returned? <==> spec != "" && LoadDefinition(lib, spec, UnableToParse).Loaded?
    ensures PathsReply(lib, spec).Returned? ==>
      var paths := LoadDefinition(lib, spec, UnableToParse).api.paths;
      var lines := SliceLines(PathsReply(lib, spec).value);
      && (PathsReply(lib, spec).value.None? <==> OperationCount(SortedKeys(paths), paths) == 0)
      && |lines| == OperationCount(SortedKeys(paths), paths)
      && forall e :: e in lines <==>
           exists k, op :: k in paths && op in DeclaredOperations(paths[k].fields) && e == op + " " + k
  {
    if PathsReply(lib, spec).Returned? {
      var paths := LoadDefinition(lib, spec, UnableToParse).api.paths;
      assert SliceLines(PathsReply(lib, spec).value) == Catalogue(paths);
      CatalogueLength(paths);
      forall e ensures e in Catalogue(paths) <==>
        exists k, op :: k in paths && op in DeclaredOperations(paths[k].fields) && e == op + " " + k
      {
        CatalogueMembers(paths, e);
      }
    }
  }

  /** A definition whose path table declares no operation (for example an empty
      table) makes `LoadPaths` return nil, the same value it returns after a
      dialog. */
  lemma EmptyListingIsNil(lib: Library, spec: string)
    requires spec != "" && LoadDefinition(lib, spec, UnableToParse).Loaded?
    requires forall k :: k in LoadDefinition(lib, spec, UnableToParse).api.paths ==>
      DeclaredOperations(LoadDefinition(lib, spec, UnableToParse).api.paths[k].fields) == []
    ensures PathsReply(lib, spec) == Returned(None)
  {
    var paths := LoadDefinition(lib, spec, UnableToParse).api.paths;
    CatalogueLength(paths);
    NoOperationsNoCount(SortedKeys(paths), paths);
  }

  lemma {:induction false} NoOperationsNoCount(keys: seq<string>, paths: Paths)
    requires forall k :: k in keys ==> k in paths && DeclaredOperations(paths[k].fields) == []
    ensures OperationCount(keys, paths) == 0
    decreases |keys|
  {
    if |keys| > 0 {
      NoOperationsNoCount(keys[..|keys| - 1], paths);
    }
  }
}
