/**
 The HTTP methods a path item declares (`getOperations`). The source discovers
 them by reflecting over the fields of the library's PathItem struct; here the
 struct is the explicit, ordered list of its fields.
 */
module Operations {
  import opened Wrappers
  import opened Text

  /** An OpenAPI operation object; its content plays no part here. */
  datatype Operation = Operation(operationId: string)

  /** What reflection sees in one field: a `*Operation` (possibly nil) or a field of another type. */
  datatype FieldValue = OperationField(op: Option<Operation>) | OtherField

  datatype Field = Field(name: string, value: FieldValue)

  /** A path item: the fields of its struct, in declaration order. */
  datatype PathItem = PathItem(fields: seq<Field>)

  /** A field of type `*Operation` that is not nil. */
  predicate Declares(f: Field)
  {
    f.value.OperationField? && f.value.op.Some?
  }

  /** Reference definition: the upper-cased names of the declared operation
      fields, in field order. */
  function DeclaredOperations(fields: seq<Field>): seq<string>
  {
    if |fields| == 0 then []
    else
      DeclaredOperations(fields[..|fields| - 1]) + Listed(fields[|fields| - 1])
  }

  /** What one field contributes to the enumeration. */
  function Listed(f: Field): seq<string>
  {
    if Declares(f) then [ToUpper(f.name)] else []
  }

  /** `getOperations`: walks the fields and collects the declared methods. */
  method GetOperations(item: PathItem) returns (operations: seq<string>)
    ensures operations == DeclaredOperations(item.fields)
  {
    operations := [];
    for i := 0 to |item.fields|
      invariant operations == DeclaredOperations(item.fields[..i])
    {
      var field := item.fields[i];
      assert item.fields[..i + 1][..i] == item.fields[..i];
      if field.value.OperationField? && field.value.op.Some? {
        operations := operations + [ToUpper(field.name)];
      }
    }
    assert item.fields[..|item.fields|] == item.fields;
  }

  /** The enumeration distributes over the field list, so methods come out in
      field order. */
  lemma {:induction false} DeclaredOperationsAppend(a: seq<Field>, b: seq<Field>)
    ensures DeclaredOperations(a + b) == DeclaredOperations(a) + DeclaredOperations(b)
    decreases |b|
  {
    if |b| == 0 {
      assert a + b == a;
    } else {
      assert (a + b)[..|a + b| - 1] == a + b[..|b| - 1];
      DeclaredOperationsAppend(a, b[..|b| - 1]);
    }
  }

  /** A name is listed exactly when some declared operation field carries it. */
  lemma {:induction false} DeclaredOperationsMembers(fields: seq<Field>, m: string)
    ensures m in DeclaredOperations(fields) <==>
      exists i :: 0 <= i < |fields| && Declares(fields[i]) && m == ToUpper(fields[i].name)
    decreases |fields|
  {
    if |fields| > 0 {
      var init := fields[..|fields| - 1];
      DeclaredOperationsMembers(init, m);
      if m in DeclaredOperations(init) {
        var i :| 0 <= i < |init| && Declares(init[i]) && m == ToUpper(init[i].name);
        assert fields[i] == init[i];
      }
      forall i | 0 <= i < |fields| - 1 ensures fields[i] == init[i] { }
    }
  }

  /** The result has one entry per declared operation field. */
  lemma {:induction false} DeclaredOperationsCount(fields: seq<Field>)
    ensures |DeclaredOperations(fields)| == |set i | 0 <= i < |fields| && Declares(fields[i])|
    decreases |fields|
  {
    if |fields| > 0 {
      var n := |fields| - 1;
      var init := fields[..n];
      DeclaredOperationsCount(init);
      var before := set i | 0 <= i < n && Declares(init[i]);
      var after := set i | 0 <= i < |fields| && Declares(fields[i]);
      assert forall i :: 0 <= i < n ==> init[i] == fields[i];
      assert after == before + (if Declares(fields[n]) then {n} else {});
    }
  }

  /** With operation fields whose names differ once upper-cased (as the methods
      of a path item do), no method is listed twice. */
  lemma {:induction false} DeclaredOperationsDistinct(fields: seq<Field>)
    requires forall i, j :: 0 <= i < j < |fields| && Declares(fields[i]) && Declares(fields[j]) ==>
      ToUpper(fields[i].name) != ToUpper(fields[j].name)
    ensures Distinct(DeclaredOperations(fields))
    decreases |fields|
  {
    if |fields| > 0 {
      var n := |fields| - 1;
      var init := fields[..n];
      DeclaredOperationsDistinct(init);
      if Declares(fields[n]) {
        DeclaredOperationsMembers(init, ToUpper(fields[n].name));
      }
    }
  }

  /** Field names as Go spells them: non-empty and without spaces. */
  predicate WellFormed(item: PathItem)
  {
    forall i :: 0 <= i < |item.fields| ==> item.fields[i].name != "" && ' ' !in item.fields[i].name
  }

  /** For a well-formed item every listed method is non-empty, space-free and upper case. */
  lemma DeclaredOperationsShape(item: PathItem)
    requires WellFormed(item)
    ensures forall m :: m in DeclaredOperations(item.fields) ==>
      m != "" && ' ' !in m && forall c :: c in m ==> !('a' <= c <= 'z')
  {
    forall m | m in DeclaredOperations(item.fields)
      ensures m != "" && ' ' !in m && forall c :: c in m ==> !('a' <= c <= 'z')
    {
      DeclaredOperationsMembers(item.fields, m);
      var i :| 0 <= i < |item.fields| && Declares(item.fields[i]) && m == ToUpper(item.fields[i].name);
      ToUpperProperties(item.fields[i].name);
    }
  }

  /** Two method fields side by side. */
  function MethodPair(first: string, a: Option<Operation>, second: string, b: Option<Operation>): seq<Field>
  {
    [Field(first, OperationField(a)), Field(second, OperationField(b))]
  }

  /** A path item laid out with a documentation field followed by the eight
      method fields in an assumed order, GET, PUT, POST, DELETE, OPTIONS, HEAD,
      PATCH, TRACE: the library's own field order is not part of this model. */
  function NewPathItem(get: Option<Operation>, put: Option<Operation>, post: Option<Operation>,
                       delete: Option<Operation>, options: Option<Operation>, head: Option<Operation>,
                       patch: Option<Operation>, trace: Option<Operation>): (item: PathItem)
    ensures WellFormed(item)
  {
    PathItem([Field("Summary", OtherField)] + MethodPair("Get", get, "Put", put) + MethodPair("Post", post, "Delete", delete)
      + MethodPair("Options", options, "Head", head) + MethodPair("Patch", patch, "Trace", trace))
  }

  function ListedIf(name: string, op: Option<Operation>): seq<string>
  {
    if op.Some? then [name] else []
  }

  lemma DeclaredOperationsPair(first: string, a: Option<Operation>, second: string, b: Option<Operation>)
    ensures DeclaredOperations(MethodPair(first, a, second, b)) == ListedIf(ToUpper(first), a) + ListedIf(ToUpper(second), b)
  {
    var fs := MethodPair(first, a, second, b);
    assert fs[..1][..0] == [] && fs[..1] == [fs[0]] && fs[..2] == fs;
    assert DeclaredOperations(fs[..1]) == Listed(fs[0]);
  }

  lemma MethodFieldNames()
    ensures ToUpper("Get") == "GET" && ToUpper("Put") == "PUT" && ToUpper("Post") == "POST"
    ensures ToUpper("Delete") == "DELETE" && ToUpper("Options") == "OPTIONS" && ToUpper("Head") == "HEAD"
    ensures ToUpper("Patch") == "PATCH" && ToUpper("Trace") == "TRACE"
  {
  }

  /** Five consecutive blocks of fields. */
  lemma DeclaredOperationsBlocks(s0: seq<Field>, p1: seq<Field>, p2: seq<Field>, p3: seq<Field>, p4: seq<Field>)
    ensures DeclaredOperations(s0 + p1 + p2 + p3 + p4) == DeclaredOperations(s0) + DeclaredOperations(p1) +
      DeclaredOperations(p2) + DeclaredOperations(p3) + DeclaredOperations(p4)
  {
    DeclaredOperationsAppend(s0, p1);
    DeclaredOperationsAppend(s0 + p1, p2);
    DeclaredOperationsAppend(s0 + p1 + p2, p3);
    DeclaredOperationsAppend(s0 + p1 + p2 + p3, p4);
  }

  /** The declared methods of such an item come out in the order of its fields. */
  lemma NewPathItemOperations(get: Option<Operation>, put: Option<Operation>, post: Option<Operation>,
                              delete: Option<Operation>, options: Option<Operation>, head: Option<Operation>,
                              patch: Option<Operation>, trace: Option<Operation>)
    ensures DeclaredOperations(NewPathItem(get, put, post, delete, options, head, patch, trace).fields) ==
      (ListedIf("GET", get) + ListedIf("PUT", put)) + (ListedIf("POST", post) + ListedIf("DELETE", delete)) +
      (ListedIf("OPTIONS", options) + ListedIf("HEAD", head)) + (ListedIf("PATCH", patch) + ListedIf("TRACE", trace))
  {
    var s0 := [Field("Summary", OtherField)];
    var p1, p2 := MethodPair("Get", get, "Put", put), MethodPair("Post", post, "Delete", delete);
    var p3, p4 := MethodPair("Options", options, "Head", head), MethodPair("Patch", patch, "Trace", trace);
    assert NewPathItem(get, put, post, delete, options, head, patch, trace).fields == s0 + p1 + p2 + p3 + p4;
    assert DeclaredOperations(s0) == [] by {
      assert s0[..0] == [];
    }
    DeclaredOperationsBlocks(s0, p1, p2, p3, p4);
    assert DeclaredOperations(p1) == ListedIf("GET", get) + ListedIf("PUT", put) by {
      MethodFieldNames();
      DeclaredOperationsPair("Get", get, "Put", put);
    }
    assert DeclaredOperations(p2) == ListedIf("POST", post) + ListedIf("DELETE", delete) by {
      MethodFieldNames();
      DeclaredOperationsPair("Post", post, "Delete", delete);
    }
    assert DeclaredOperations(p3) == ListedIf("OPTIONS", options) + ListedIf("HEAD", head) by {
      MethodFieldNames();
      DeclaredOperationsPair("Options", options, "Head", head);
    }
    assert DeclaredOperations(p4) == ListedIf("PATCH", patch) + ListedIf("TRACE", trace) by {
      MethodFieldNames();
      DeclaredOperationsPair("Patch", patch, "Trace", trace);
    }
    assert [] + DeclaredOperations(p1) == DeclaredOperations(p1);
  }

  /** The cases pinned by the repository's tests (app_test.go:65-69). */
  lemma GetOperationsExamples(op: Operation)
    ensures DeclaredOperations(NewPathItem(Some(op), None, None, None, None, None, None, None).fields) == ["GET"]
    ensures DeclaredOperations(NewPathItem(None, None, Some(op), None, None, None, None, None).fields) == ["POST"]
    ensures DeclaredOperations(NewPathItem(None, None, None, None, None, None, None, None).fields) == []
    ensures DeclaredOperations(NewPathItem(None, None, None, None, None, None, Some(op), None).fields) == ["PATCH"]
    ensures DeclaredOperations(NewPathItem(Some(op), None, Some(op), None, None, None, None, None).fields) == ["GET", "POST"]
  {
    NewPathItemOperations(Some(op), None, None, None, None, None, None, None);
    NewPathItemOperations(None, None, Some(op), None, None, None, None, None);
    NewPathItemOperations(None, None, None, None, None, None, None, None);
    NewPathItemOperations(None, None, None, None, None, None, Some(op), None);
    NewPathItemOperations(Some(op), None, Some(op), None, None, None, None, None);
  }
}
