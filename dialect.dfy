/**
 Classification of a parsed definition as OpenAPI 3 or Swagger 2 by its top-level
 keys (`isOpenApiV3`, `isValidApiDefinition`).
 */
module Dialect {

  /** The top-level map of a parsed definition: `doc[k]` is true when key `k` is
      present with a non-nil value and false when it is present with a nil value.
      A nil Go map reads like the empty map. */
  type Document = map<string, bool>

  /** Go's `m[key] != nil`. */
  predicate HasValue(doc: Document, key: string)
  {
    key in doc && doc[key]
  }

  /** `isOpenApiV3`: the `openapi` key is present with a non-nil value; such a
      document is also a valid definition. */
  predicate IsOpenApiV3(doc: Document)
    ensures IsOpenApiV3(doc) <==> "openapi" in doc && doc["openapi"]
    ensures IsOpenApiV3(doc) ==> IsValidApiDefinition(doc)
  {
    HasValue(doc, "openapi")
  }

  /** `isValidApiDefinition`: false exactly when both `openapi` and `swagger`
      are missing or nil. */
  predicate IsValidApiDefinition(doc: Document)
    ensures !IsValidApiDefinition(doc) <==>
      ("openapi" !in doc || !doc["openapi"]) && ("swagger" !in doc || !doc["swagger"])
    ensures IsValidApiDefinition(doc) && "openapi" !in doc ==> "swagger" in doc && doc["swagger"]
  {
    HasValue(doc, "openapi") || HasValue(doc, "swagger")
  }

  datatype SpecDialect = V2Swagger | V3OpenApi | NoDefinition

  /** The decision `Validate` and `LoadPaths` take: reject, load as OpenAPI 3,
      or load as Swagger 2 and convert. */
  function Classify(doc: Document): (d: SpecDialect)
    ensures d == NoDefinition <==> !HasValue(doc, "openapi") && !HasValue(doc, "swagger")
    ensures d == V3OpenApi <==> HasValue(doc, "openapi")
    ensures d == V2Swagger <==> HasValue(doc, "swagger") && !HasValue(doc, "openapi")
  {
    if !IsValidApiDefinition(doc) then NoDefinition
    else if IsOpenApiV3(doc) then V3OpenApi
    else V2Swagger
  }

  /** Every OpenAPI 3 definition is a valid definition; a valid one that is not
      OpenAPI 3 carries a `swagger` key. */
  lemma OpenApiV3IsValid(doc: Document)
    ensures IsOpenApiV3(doc) ==> IsValidApiDefinition(doc)
    ensures IsValidApiDefinition(doc) && !IsOpenApiV3(doc) ==> HasValue(doc, "swagger")
  {
  }

  /** The `swagger` key does not affect the OpenAPI 3 test, and keys other than
      the two markers affect neither test. */
  lemma DialectKeys(doc: Document, key: string, present: bool)
    ensures IsOpenApiV3(doc["swagger" := present]) == IsOpenApiV3(doc)
    ensures key != "openapi" && key != "swagger" ==>
      IsOpenApiV3(doc[key := present]) == IsOpenApiV3(doc) &&
      IsValidApiDefinition(doc[key := present]) == IsValidApiDefinition(doc)
  {
  }

  /** The cases pinned by the repository's tests (app_test.go:18-21, 41-45). */
  lemma DialectExamples()
    ensures IsOpenApiV3(map["openapi" := true]) && !IsOpenApiV3(map["swagger" := true])
    ensures !IsOpenApiV3(map["foo" := true]) && !IsOpenApiV3(map[])
    ensures IsValidApiDefinition(map["openapi" := true]) && IsValidApiDefinition(map["swagger" := true])
    ensures !IsValidApiDefinition(map["foo" := true]) && !IsValidApiDefinition(map[])
  {
  }
}
