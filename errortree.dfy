/**
 Flattening of the validator's multi-error tree into a map from field locator
 (`@body`, `@body.<pointer>`, `<in>.<name>`) to messages (`getErrors`).
 */
module ErrorTree {
  import opened Wrappers
  import opened Text

  /** The parameter a request error is about: where it lives (`query`, `path`,
      `header`, `cookie`) and its name. */
  datatype Parameter = Parameter(location: string, name: string)

  /** One element of a multi-error. `message` is what the error's `Error()` returns. */
  datatype Err =
    | SchemaError(pointer: seq<string>, message: string)
    | RequestError(parameter: Option<Parameter>, cause: Cause, hasBody: bool, message: string)
    | OtherError(message: string)

  /** The error a request error wraps: a multi-error, or anything else. */
  datatype Cause = MultiError(errors: seq<Err>) | NotMulti

  /** Field locator to messages. */
  type Issues = map<string, seq<string>>

  const BodyPrefix: string := "@body"

  /** The locator of a schema error: `@body`, extended by the dot-joined JSON pointer when it is non-empty. */
  function SchemaField(pointer: seq<string>): (r: string)
    ensures |BodyPrefix| <= |r| && r[..|BodyPrefix|] == BodyPrefix
    ensures r == BodyPrefix <==> |pointer| == 0
    ensures |pointer| > 0 ==> r[|BodyPrefix|] == '.' && r[|BodyPrefix| + 1..] == Join(pointer, ".")
  {
    if |pointer| > 0 then BodyPrefix + "." + Join(pointer, ".") else BodyPrefix
  }

  /** The locator of a parameter error: `<in>.<name>`. */
  function ParameterField(p: Parameter): (r: string)
    ensures |r| == |p.location| + 1 + |p.name|
    ensures r[..|p.location|] == p.location && r[|p.location|] == '.' && r[|p.location| + 1..] == p.name
  {
    p.location + "." + p.name
  }

  /** Parameter locations contain no dot, so distinct parameters get distinct
      locators: the first dot ends the location and the rest is the name. */
  lemma ParameterFieldInjective(p: Parameter, q: Parameter)
    requires '.' !in p.location && '.' !in q.location
    requires ParameterField(p) == ParameterField(q)
    ensures p == q
  {
  }

  /** Go's `issues[key]`: the nil slice when the key is missing. */
  function Lookup(issues: Issues, key: string): seq<string>
  {
    if key in issues then issues[key] else []
  }

  // ---------------------------------------------------------------------------
  // Reference: the recognised leaves in discovery order, grouped by locator.

  /** The recognised leaves of a multi-error, depth first and left to right, each
      with its locator. A request error with a parameter is a leaf even if it
      also nests errors or concerns the body; otherwise a nested multi-error is
      descended into; otherwise a request error about the body is a leaf;
      anything else is skipped. */
  function Discoveries(me: seq<Err>): seq<(string, string)>
  {
    if |me| == 0 then []
    else Discoveries(me[..|me| - 1]) + Found(me[|me| - 1])
  }

  function Found(e: Err): seq<(string, string)>
  {
    match e
    case SchemaError(pointer, message) => [(SchemaField(pointer), message)]
    case RequestError(parameter, cause, hasBody, message) =>
      if parameter.Some? then [(ParameterField(parameter.value), message)]
      else if cause.MultiError? then Discoveries(cause.errors)
      else if hasBody then [(BodyPrefix, message)]
      else []
    case OtherError(_) => []
  }

  /** The messages in `d` that carry locator `key`, in order. */
  function Messages(d: seq<(string, string)>, key: string): seq<string>
  {
    if |d| == 0 then []
    else Messages(d[..|d| - 1], key) + (if d[|d| - 1].0 == key then [d[|d| - 1].1] else [])
  }

  /** Builds the map by appending each message to its locator's list, in order. */
  function Group(d: seq<(string, string)>): Issues
  {
    if |d| == 0 then map[]
    else
      var prev := Group(d[..|d| - 1]);
      var (key, message) := d[|d| - 1];
      prev[key := Lookup(prev, key) + [message]]
  }

  /** Per locator, the grouped map holds exactly the messages found for it, in
      discovery order and without deduplication; it holds no other locator. */
  lemma {:induction false} GroupLookup(d: seq<(string, string)>, key: string)
    ensures Lookup(Group(d), key) == Messages(d, key)
    ensures key in Group(d) <==> Messages(d, key) != []
    decreases |d|
  {
    if |d| > 0 {
      GroupLookup(d[..|d| - 1], key);
    }
  }

  /** Key-wise concatenation (the merge loop of `getErrors`). */
  function Merge(into: Issues, from: Issues): (r: Issues)
    ensures forall k :: Lookup(r, k) == Lookup(into, k) + Lookup(from, k)
    ensures r.Keys == into.Keys + from.Keys
  {
    map k | k in into.Keys + from.Keys :: Lookup(into, k) + Lookup(from, k)
  }

  /** Two issue maps with the same keys that agree on every lookup are equal. */
  lemma IssuesExtensional(a: Issues, b: Issues)
    requires a.Keys == b.Keys
    requires forall k :: Lookup(a, k) == Lookup(b, k)
    ensures a == b
  {
    forall k | k in a ensures a[k] == b[k] {
      assert Lookup(a, k) == Lookup(b, k);
    }
  }

  lemma {:induction false} MessagesAppend(d1: seq<(string, string)>, d2: seq<(string, string)>, key: string)
    ensures Messages(d1 + d2, key) == Messages(d1, key) + Messages(d2, key)
    decreases |d2|
  {
    if |d2| == 0 {
      assert d1 + d2 == d1;
    } else {
      var init := d2[..|d2| - 1];
      assert (d1 + d2)[..|d1 + d2| - 1] == d1 + init;
      assert (d1 + d2)[|d1 + d2| - 1] == d2[|d2| - 1];
      MessagesAppend(d1, init, key);
    }
  }

  /** Merging the groups of two discovery lists groups their concatenation: the
      child's messages go after the parent's, key by key. */
  lemma MergeGroup(d1: seq<(string, string)>, d2: seq<(string, string)>)
    ensures Merge(Group(d1), Group(d2)) == Group(d1 + d2)
  {
    var a, b := Merge(Group(d1), Group(d2)), Group(d1 + d2);
    forall k ensures Lookup(a, k) == Lookup(b, k) && (k in a <==> k in b) {
      GroupLookup(d1, k);
      GroupLookup(d2, k);
      GroupLookup(d1 + d2, k);
      MessagesAppend(d1, d2, k);
    }
    IssuesExtensional(a, b);
  }

  // ---------------------------------------------------------------------------
  // The imperative flattening.

  /** `getErrors`: walks the multi-error, appending each recognised error's
      message under its locator and merging nested multi-errors recursively. */
  method GetErrors(me: seq<Err>) returns (issues: Issues)
    ensures issues == Group(Discoveries(me))
  {
    issues := map[];
    for i := 0 to |me|
      invariant issues == Group(Discoveries(me[..i]))
    {
      ghost var before := Discoveries(me[..i]);
      assert me[..i + 1][..i] == me[..i];
      assert Discoveries(me[..i + 1]) == before + Found(me[i]);
      match me[i] {
        case SchemaError(pointer, message) =>
          var field := BodyPrefix;
          if |pointer| > 0 {
            field := BodyPrefix + "." + Join(pointer, ".");
          }
          assert Found(me[i]) == [(field, message)];
          GroupSnoc(before, field, message);
          issues := issues[field := Lookup(issues, field) + [message]];
        case RequestError(parameter, cause, hasBody, message) =>
          if parameter.Some? {
            var name := parameter.value.location + "." + parameter.value.name;
            assert Found(me[i]) == [(name, message)];
            GroupSnoc(before, name, message);
            issues := issues[name := Lookup(issues, name) + [message]];
          } else if cause.MultiError? {
            var child := GetErrors(cause.errors);
            issues := MergeInto(issues, child);
            assert Found(me[i]) == Discoveries(cause.errors);
            MergeGroup(before, Discoveries(cause.errors));
          } else if hasBody {
            assert Found(me[i]) == [(BodyPrefix, message)];
            GroupSnoc(before, BodyPrefix, message);
            issues := issues[BodyPrefix := Lookup(issues, BodyPrefix) + [message]];
          } else {
            assert before + Found(me[i]) == before;
          }
        case OtherError(_) =>
          assert before + Found(me[i]) == before;
      }
    }
    assert me[..|me|] == me;
  }

  /** The loop `for k, v := range child { issues[k] = append(issues[k], v...) }`,
      in whatever order the map yields its keys. */
  method MergeInto(issues: Issues, child: Issues) returns (merged: Issues)
    ensures merged == Merge(issues, child)
  {
    merged := issues;
    var rest := child.Keys;
    assert child.Keys - rest == {};
    while rest != {}
      invariant rest <= child.Keys
      invariant MergedSoFar(merged, issues, child, child.Keys - rest)
      decreases |rest|
    {
      var k :| k in rest;
      MergeStep(merged, issues, child, rest, k);
      merged := merged[k := Lookup(merged, k) + child[k]];
      rest := rest - {k};
    }
    MergedAll(merged, issues, child, rest);
  }

  /** `merged` is `issues` with the lists of the keys `done` of `child` appended. */
  ghost predicate MergedSoFar(merged: Issues, issues: Issues, child: Issues, done: set<string>)
  {
    && merged.Keys == issues.Keys + done
    && forall j :: Lookup(merged, j) == Lookup(issues, j) + (if j in done then Lookup(child, j) else [])
  }

  lemma MergedAll(merged: Issues, issues: Issues, child: Issues, rest: set<string>)
    requires rest == {}
    requires MergedSoFar(merged, issues, child, child.Keys - rest)
    ensures merged == Merge(issues, child)
  {
    assert child.Keys - rest == child.Keys;
    IssuesExtensional(merged, Merge(issues, child));
  }

  lemma MergeStep(merged: Issues, issues: Issues, child: Issues, rest: set<string>, k: string)
    requires rest <= child.Keys && k in rest
    requires MergedSoFar(merged, issues, child, child.Keys - rest)
    ensures MergedSoFar(merged[k := Lookup(merged, k) + child[k]], issues, child, child.Keys - (rest - {k}))
  {
    var done := child.Keys - rest;
    assert child.Keys - (rest - {k}) == done + {k};
    var next := merged[k := Lookup(merged, k) + child[k]];
    forall j ensures Lookup(next, j) == Lookup(issues, j) + (if j in done + {k} then Lookup(child, j) else []) {
      if j != k {
        assert Lookup(next, j) == Lookup(merged, j);
      }
    }
  }

  /** One more leaf appends one message under its locator. */
  lemma GroupSnoc(d: seq<(string, string)>, key: string, message: string)
    ensures Group(d + [(key, message)]) == Group(d)[key := Lookup(Group(d), key) + [message]]
  {
    assert (d + [(key, message)])[..|d|] == d;
  }

  // ---------------------------------------------------------------------------
  // Properties of the reference.

  /** Leaves are found left to right: the leaves of a concatenation are those
      of its halves, in order. */
  lemma {:induction false} DiscoveriesAppend(a: seq<Err>, b: seq<Err>)
    ensures Discoveries(a + b) == Discoveries(a) + Discoveries(b)
    decreases |b|
  {
    if |b| == 0 {
      assert a + b == a;
    } else {
      var init := b[..|b| - 1];
      assert (a + b)[..|a + b| - 1] == a + init;
      assert (a + b)[|a + b| - 1] == b[|b| - 1];
      DiscoveriesAppend(a, init);
    }
  }

  /** A message is listed under a locator exactly when some leaf carries that
      locator and message: nothing is lost and nothing is invented. */
  lemma {:induction false} MessagesMembers(d: seq<(string, string)>, key: string, message: string)
    ensures message in Messages(d, key) <==> (key, message) in d
    decreases |d|
  {
    if |d| > 0 {
      var init := d[..|d| - 1];
      MessagesMembers(init, key, message);
      assert d == init + [d[|d| - 1]];
      assert (key, message) in d <==> (key, message) in init || d[|d| - 1] == (key, message);
    }
  }

  lemma GroupMembers(d: seq<(string, string)>, key: string, message: string)
    ensures message in Lookup(Group(d), key) <==> (key, message) in d
    ensures key in Group(d) <==> exists m :: (key, m) in d
  {
    GroupLookup(d, key);
    MessagesMembers(d, key, message);
    if key in Group(d) {
      var m := Messages(d, key)[0];
      MessagesMembers(d, key, m);
    } else {
      forall m ensures (key, m) !in d {
        MessagesMembers(d, key, m);
      }
    }
  }

  /** The locator rules for one error, as `getErrors` applies them. */
  lemma LocatorRules(e: Err)
    ensures e.SchemaError? ==> Group(Discoveries([e])) == map[SchemaField(e.pointer) := [e.message]]
    ensures e.RequestError? && e.parameter.Some? ==>
      Group(Discoveries([e])) == map[ParameterField(e.parameter.value) := [e.message]]
    ensures e.RequestError? && e.parameter.None? && e.cause.MultiError? ==>
      Group(Discoveries([e])) == Group(Discoveries(e.cause.errors))
    ensures e.RequestError? && e.parameter.None? && e.cause.NotMulti? && e.hasBody ==>
      Group(Discoveries([e])) == map[BodyPrefix := [e.message]]
    ensures e.OtherError? || (e.RequestError? && e.parameter.None? && e.cause.NotMulti? && !e.hasBody) ==>
      Group(Discoveries([e])) == map[]
  {
    assert [e][..0] == [];
    assert Discoveries([e]) == Found(e);
    match e {
      case SchemaError(pointer, message) =>
        GroupSingle(SchemaField(pointer), message);
      case RequestError(parameter, cause, hasBody, message) =>
        if parameter.Some? {
          GroupSingle(ParameterField(parameter.value), message);
        } else if cause.NotMulti? && hasBody {
          GroupSingle(BodyPrefix, message);
        }
      case OtherError(_) =>
    }
  }

  lemma GroupSingle(key: string, message: string)
    ensures Group([(key, message)]) == map[key := [message]]
  {
    var d := [(key, message)];
    assert d[..0] == [];
    assert Group(d[..0]) == map[];
    assert Lookup(map[], key) == [];
    assert Group(d) == map[][key := [] + [message]];
    assert [] + [message] == [message];
  }

  /** The map is empty exactly when no leaf is recognised; in particular a
      multi-error of unrecognised errors yields the empty map. */
  lemma NoLeavesNoIssues(me: seq<Err>)
    ensures Group(Discoveries(me)) == map[] <==> Discoveries(me) == []
    ensures (forall i :: 0 <= i < |me| ==> me[i].OtherError?) ==> Group(Discoveries(me)) == map[]
  {
    var d := Discoveries(me);
    if d != [] {
      GroupMembers(d, d[0].0, d[0].1);
    }
    if forall i :: 0 <= i < |me| ==> me[i].OtherError? {
      OtherErrorsOnly(me);
    }
  }

  lemma {:induction false} OtherErrorsOnly(me: seq<Err>)
    requires forall i :: 0 <= i < |me| ==> me[i].OtherError?
    ensures Discoveries(me) == []
    decreases |me|
  {
    if |me| > 0 {
      OtherErrorsOnly(me[..|me| - 1]);
    }
  }

  /** The number of messages listed under the locators `keys`. */
  function TotalOver(keys: seq<string>, issues: Issues): nat
  {
    if |keys| == 0 then 0 else TotalOver(keys[..|keys| - 1], issues) + |Lookup(issues, keys[|keys| - 1])|
  }

  lemma {:induction false} TotalOverUpdate(keys: seq<string>, issues: Issues, key: string, message: string)
    requires Distinct(keys)
    ensures TotalOver(keys, issues[key := Lookup(issues, key) + [message]])
         == TotalOver(keys, issues) + (if key in keys then 1 else 0)
    decreases |keys|
  {
    if |keys| > 0 {
      var init := keys[..|keys| - 1];
      assert Distinct(init);
      assert key in keys <==> key in init || keys[|keys| - 1] == key;
      TotalOverUpdate(init, issues, key, message);
    }
  }

  /** No message is dropped or duplicated: summed over any duplicate-free
      enumeration of its locators, the grouped map holds one message per leaf. */
  lemma {:induction false} GroupTotal(d: seq<(string, string)>, keys: seq<string>)
    requires Distinct(keys)
    requires forall key :: key in Group(d) ==> key in keys
    ensures TotalOver(keys, Group(d)) == |d|
    decreases |d|
  {
    if |d| == 0 {
      TotalOverEmpty(keys);
    } else {
      var init := d[..|d| - 1];
      var (key, message) := d[|d| - 1];
      assert key in Group(d);
      forall k | k in Group(init) ensures k in keys {
        assert k in Group(d);
      }
      GroupTotal(init, keys);
      TotalOverUpdate(keys, Group(init), key, message);
    }
  }

  lemma {:induction false} TotalOverEmpty(keys: seq<string>)
    ensures TotalOver(keys, map[]) == 0
    decreases |keys|
  {
    if |keys| > 0 {
      TotalOverEmpty(keys[..|keys| - 1]);
    }
  }
}
