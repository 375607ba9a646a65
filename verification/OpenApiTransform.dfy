/**
 Pruning and transformation in backend/scripts/transform_openapi_for_docs.py: what is
 deleted from schemas and operations, and the document that is left.
 */
module OpenApiTransform {
  import opened Wrappers
  import opened JsonText
  import opened OpenApiDocs

  // ----- remove_internal_properties_from_schema -------------------------

  function DropInternalKeys(fields: seq<Field>): seq<Field> {
    if fields == [] then []
    else
      var n := |fields| - 1;
      DropInternalKeys(fields[..n]) + (if IsInternal(fields[n].key) then [] else [fields[n]])
  }

  predicate NamesInternal(j: Json) {
    j.Str? && IsInternal(j.s)
  }

  function DropInternalNames(items: seq<Json>): seq<Json> {
    if items == [] then []
    else
      var n := |items| - 1;
      DropInternalNames(items[..n]) + (if NamesInternal(items[n]) then [] else [items[n]])
  }

  predicate HasProperties(fields: seq<Field>) {
    var properties := Get(fields, "properties");
    properties.Some? && properties.value.Obj?
  }

  predicate IsCombinator(key: string) {
    key == "allOf" || key == "oneOf" || key == "anyOf"
  }

  /** A schema with the internal properties of every visited position removed. */
  function PruneSchema(j: Json): Json
    decreases j
  {
    match j
    case Obj(fields) => Obj(PruneFields(fields, HasProperties(fields)))
    case _ => j
  }

  function PruneItems(items: seq<Json>): seq<Json>
    decreases items
  {
    if items == [] then [] else PruneItems(items[..|items| - 1]) + [PruneSchema(items[|items| - 1])]
  }

  function PruneFields(fields: seq<Field>, hasProperties: bool): seq<Field>
    decreases fields
  {
    if fields == [] then []
    else
      var n := |fields| - 1;
      PruneFields(fields[..n], hasProperties) + PruneField(fields[n], hasProperties)
  }

  /** What becomes of one member of a schema: it stays, changed or not, or goes. */
  function PruneField(f: Field, hasProperties: bool): seq<Field>
    decreases f, 0
  {
    if f.key == "properties" && f.value.Obj? then [Field(f.key, Obj(DropInternalKeys(f.value.fields)))]
    else if f.key == "required" && hasProperties && f.value.Arr? then
      var kept := DropInternalNames(f.value.items);
      if kept == [] then [] else [Field(f.key, Arr(kept))]
    else if IsCombinator(f.key) && f.value.Arr? then [Field(f.key, Arr(PruneItems(f.value.items)))]
    else if f.key == "items" then [Field(f.key, PruneSchema(f.value))]
    else if f.key == "additionalProperties" && f.value.Obj? then [Field(f.key, PruneSchema(f.value))]
    else [f]
  }

  // ----- Pruning never adds references ----------------------------------

  lemma {:induction false} RefsOfFieldsConcat(a: seq<Field>, b: seq<Field>)
    ensures RefsOfFields(a + b) == RefsOfFields(a) + RefsOfFields(b)
  {
    if b == [] {
      assert a + b == a;
    } else {
      var n := |b| - 1;
      assert (a + b)[..|a + b| - 1] == a + b[..n];
      RefsOfFieldsConcat(a, b[..n]);
    }
  }

  lemma {:induction false} RefsOfItemsConcat(a: seq<Json>, b: seq<Json>)
    ensures RefsOfItems(a + b) == RefsOfItems(a) + RefsOfItems(b)
  {
    if b == [] {
      assert a + b == a;
    } else {
      var n := |b| - 1;
      assert (a + b)[..|a + b| - 1] == a + b[..n];
      RefsOfItemsConcat(a, b[..n]);
    }
  }

  lemma RefsOfOne(f: Field)
    ensures RefsOfFields([f]) == Refs(f.value)
  {
    assert [f][..0] == [];
  }

  lemma RefsOfOneItem(j: Json)
    ensures RefsOfItems([j]) == Refs(j)
  {
    assert [j][..0] == [];
  }

  lemma {:induction false} DroppedKeysRefs(fields: seq<Field>)
    ensures RefsOfFields(DropInternalKeys(fields)) <= RefsOfFields(fields)
    ensures Get(DropInternalKeys(fields), "$ref") == Get(fields, "$ref")
  {
    if fields == [] {
    } else {
      var n := |fields| - 1;
      DroppedKeysRefs(fields[..n]);
      RefsOfFieldsConcat(DropInternalKeys(fields[..n]), [fields[n]]);
      RefsOfOne(fields[n]);
      GetConcat(DropInternalKeys(fields[..n]), [fields[n]], "$ref");
      GetOfOne(fields[n], "$ref");
      assert DropInternalKeys(fields[..n]) + [] == DropInternalKeys(fields[..n]);
    }
  }

  lemma {:induction false} DroppedNamesRefs(items: seq<Json>)
    ensures RefsOfItems(DropInternalNames(items)) <= RefsOfItems(items)
  {
    if items == [] {
    } else {
      var n := |items| - 1;
      DroppedNamesRefs(items[..n]);
      RefsOfItemsConcat(DropInternalNames(items[..n]), [items[n]]);
      RefsOfOneItem(items[n]);
      assert DropInternalNames(items[..n]) + [] == DropInternalNames(items[..n]);
    }
  }

  /** Pruning a schema never adds a reference to it. */
  lemma {:induction false} PruneAddsNoRefs(j: Json)
    ensures Refs(PruneSchema(j)) <= Refs(j)
    decreases j
  {
    if j.Obj? {
      PrunedFieldsRefs(j.fields, HasProperties(j.fields));
    }
  }

  lemma {:induction false} PrunedItemsRefs(items: seq<Json>)
    ensures RefsOfItems(PruneItems(items)) <= RefsOfItems(items)
    decreases items
  {
    if items == [] {
    } else {
      var n := |items| - 1;
      PrunedItemsRefs(items[..n]);
      PruneAddsNoRefs(items[n]);
      RefsOfItemsConcat(PruneItems(items[..n]), [PruneSchema(items[n])]);
      RefsOfOneItem(PruneSchema(items[n]));
    }
  }

  lemma {:induction false} PrunedFieldsRefs(fields: seq<Field>, hasProperties: bool)
    ensures RefsOfFields(PruneFields(fields, hasProperties)) <= RefsOfFields(fields)
    ensures Get(PruneFields(fields, hasProperties), "$ref") == Get(fields, "$ref")
    decreases fields
  {
    if fields == [] {
    } else {
      hide PruneField;
      var n := |fields| - 1;
      var pruned := PruneField(fields[n], hasProperties);
      PrunedFieldsRefs(fields[..n], hasProperties);
      PrunedFieldRefs(fields[n], hasProperties);
      RefsOfFieldsConcat(PruneFields(fields[..n], hasProperties), pruned);
      GetConcat(PruneFields(fields[..n], hasProperties), pruned, "$ref");
    }
  }

  lemma KeysDiffer()
    ensures forall key ::
              key in ["properties", "required", "allOf", "oneOf", "anyOf", "items", "additionalProperties"] ==>
                            key != "$ref"
  {
    assert "$ref"[0] == '$';
  }

  lemma {:induction false} PrunedFieldRefs(f: Field, hasProperties: bool)
    ensures RefsOfFields(PruneField(f, hasProperties)) <= Refs(f.value)
    ensures Get(PruneField(f, hasProperties), "$ref") == if f.key == "$ref" then Some(f.value) else None
    decreases f, 0
  {
    var pruned := PruneField(f, hasProperties);
    KeysDiffer();
    if pruned != [] {
      assert pruned == [pruned[0]];
      RefsOfOne(pruned[0]);
      GetOfOne(pruned[0], "$ref");
    }
    if f.key == "properties" && f.value.Obj? {
      DroppedKeysRefs(f.value.fields);
    } else if f.key == "required" && hasProperties && f.value.Arr? {
      DroppedNamesRefs(f.value.items);
    } else if IsCombinator(f.key) && f.value.Arr? {
      PrunedItemsRefs(f.value.items);
    } else if f.key == "items" || (f.key == "additionalProperties" && f.value.Obj?) {
      PruneAddsNoRefs(f.value);
    }
  }

  // ----- What pruning leaves --------------------------------------------

  /** No internal name is left at this member, nor below it where pruning goes. */
  ghost predicate MemberClean(f: Field, hasProperties: bool)
    decreases f, 0
  {
    && (f.key == "properties" && f.value.Obj? ==>
          forall i :: 0 <= i < |f.value.fields| ==> !IsInternal(f.value.fields[i].key))
    && (f.key == "required" && hasProperties && f.value.Arr? ==>
          f.value.items != [] && forall i :: 0 <= i < |f.value.items| ==> !NamesInternal(f.value.items[i]))
    && (IsCombinator(f.key) && f.value.Arr? ==> forall i :: 0 <= i < |f.value.items| ==> VisitedClean(f.value.items[i]))
    && (f.key == "items" ==> VisitedClean(f.value))
    && (f.key == "additionalProperties" && f.value.Obj? ==> VisitedClean(f.value))
  }

  ghost predicate VisitedClean(j: Json)
    decreases j
  {
    match j
    case Obj(fields) => FieldsClean(fields, HasProperties(fields))
    case _ => true
  }

  ghost predicate FieldsClean(fields: seq<Field>, hasProperties: bool)
    decreases fields
  {
    fields == [] ||
    (FieldsClean(fields[..|fields| - 1], hasProperties) && MemberClean(fields[|fields| - 1], hasProperties))
  }

  lemma {:induction false} FieldsCleanConcat(a: seq<Field>, b: seq<Field>, hasProperties: bool)
    ensures FieldsClean(a + b, hasProperties) <==> FieldsClean(a, hasProperties) && FieldsClean(b, hasProperties)
  {
    if b == [] {
      assert a + b == a;
    } else {
      var n := |b| - 1;
      assert (a + b)[..|a + b| - 1] == a + b[..n];
      FieldsCleanConcat(a, b[..n], hasProperties);
    }
  }

  lemma {:induction false} DroppedKeysClean(fields: seq<Field>)
    ensures forall i :: 0 <= i < |DropInternalKeys(fields)| ==> !IsInternal(DropInternalKeys(fields)[i].key)
    ensures (forall i :: 0 <= i < |fields| ==> !IsInternal(fields[i].key)) <==> DropInternalKeys(fields) == fields
    ensures |DropInternalKeys(fields)| <= |fields|
  {
    if fields == [] {
    } else {
      var n := |fields| - 1;
      DroppedKeysClean(fields[..n]);
      assert fields == fields[..n] + [fields[n]];
    }
  }

  lemma {:induction false} DroppedNamesClean(items: seq<Json>)
    ensures forall i :: 0 <= i < |DropInternalNames(items)| ==> !NamesInternal(DropInternalNames(items)[i])
    ensures (forall i :: 0 <= i < |items| ==> !NamesInternal(items[i])) <==> DropInternalNames(items) == items
    ensures |DropInternalNames(items)| <= |items|
  {
    if items == [] {
    } else {
      var n := |items| - 1;
      DroppedNamesClean(items[..n]);
      assert items == items[..n] + [items[n]];
    }
  }

  lemma OtherKeys()
    ensures "properties" != "required" && "properties" != "items" && "properties" != "additionalProperties"
    ensures !IsCombinator("properties")
  {
    assert "properties"[0] == 'p';
  }

  /** Pruning keeps a properties object an object, so it decides `required` the same way. */
  lemma {:induction false} PrunedKeepsProperties(fields: seq<Field>, hasProperties: bool)
    ensures HasProperties(PruneFields(fields, hasProperties)) <==> HasProperties(fields)
  {
    if fields == [] {
    } else {
      var n := |fields| - 1;
      var pruned := PruneField(fields[n], hasProperties);
      PrunedKeepsProperties(fields[..n], hasProperties);
      GetConcat(PruneFields(fields[..n], hasProperties), pruned, "properties");
      OtherKeys();
      if pruned != [] {
        assert pruned == [pruned[0]];
        GetOfOne(pruned[0], "properties");
      }
    }
  }

  /** After pruning, no internal name is left at any position that pruning visits. */
  lemma {:induction false} PrunedIsClean(j: Json)
    ensures VisitedClean(PruneSchema(j))
    decreases j
  {
    if j.Obj? {
      PrunedFieldsClean(j.fields, HasProperties(j.fields));
      PrunedKeepsProperties(j.fields, HasProperties(j.fields));
    }
  }

  lemma {:induction false} PrunedItemsClean(items: seq<Json>)
    ensures |PruneItems(items)| == |items|
    ensures forall i :: 0 <= i < |items| ==> VisitedClean(PruneItems(items)[i])
    decreases items
  {
    if items == [] {
    } else {
      PrunedItemsClean(items[..|items| - 1]);
      PrunedIsClean(items[|items| - 1]);
    }
  }

  lemma {:induction false} PrunedFieldsClean(fields: seq<Field>, hasProperties: bool)
    ensures FieldsClean(PruneFields(fields, hasProperties), hasProperties)
    decreases fields
  {
    if fields == [] {
    } else {
      hide PruneField;
      var n := |fields| - 1;
      PrunedFieldsClean(fields[..n], hasProperties);
      PrunedFieldClean(fields[n], hasProperties);
      FieldsCleanConcat(PruneFields(fields[..n], hasProperties), PruneField(fields[n], hasProperties), hasProperties);
    }
  }

  lemma OneClean(f: Field, hasProperties: bool)
    ensures FieldsClean([f], hasProperties) <==> MemberClean(f, hasProperties)
  {
    assert [f][..0] == [];
  }

  lemma {:induction false} PrunedFieldClean(f: Field, hasProperties: bool)
    ensures FieldsClean(PruneField(f, hasProperties), hasProperties)
    decreases f, 0
  {
    OtherKeys();
    var pruned := PruneField(f, hasProperties);
    if pruned != [] {
      assert pruned == [pruned[0]];
      OneClean(pruned[0], hasProperties);
    }
    if f.key == "properties" && f.value.Obj? {
      DroppedKeysClean(f.value.fields);
      assert pruned[0].value.Obj?;
    } else if f.key == "required" && hasProperties && f.value.Arr? {
      DroppedNamesClean(f.value.items);
    } else if IsCombinator(f.key) && f.value.Arr? {
      PrunedItemsClean(f.value.items);
    } else if f.key == "items" || (f.key == "additionalProperties" && f.value.Obj?) {
      PrunedIsClean(f.value);
    } else {
      assert pruned == [f];
      assert MemberClean(f, hasProperties);
    }
  }

  /** Pruning leaves a schema alone exactly when nothing it visits is internal. */
  lemma {:induction false} PruneUnchangedIffClean(j: Json)
    ensures PruneSchema(j) == j <==> VisitedClean(j)
    decreases j
  {
    PrunedIsClean(j);
    if VisitedClean(j) && j.Obj? {
      CleanFieldsUnchanged(j.fields, HasProperties(j.fields));
    }
  }

  lemma {:induction false} CleanFieldsUnchanged(fields: seq<Field>, hasProperties: bool)
    requires FieldsClean(fields, hasProperties)
    ensures PruneFields(fields, hasProperties) == fields
    decreases fields
  {
    if fields == [] {
    } else {
      hide PruneField;
      var n := |fields| - 1;
      CleanFieldsUnchanged(fields[..n], hasProperties);
      CleanFieldUnchanged(fields[n], hasProperties);
    }
  }

  lemma {:induction false} CleanFieldUnchanged(f: Field, hasProperties: bool)
    requires MemberClean(f, hasProperties)
    ensures PruneField(f, hasProperties) == [f]
    decreases f, 0
  {
    if f.key == "properties" && f.value.Obj? {
      DroppedKeysClean(f.value.fields);
    } else if f.key == "required" && hasProperties && f.value.Arr? {
      DroppedNamesClean(f.value.items);
    } else if IsCombinator(f.key) && f.value.Arr? {
      CleanItemsUnchanged(f.value.items);
    } else if f.key == "items" || (f.key == "additionalProperties" && f.value.Obj?) {
      PruneUnchangedIffClean(f.value);
    }
  }

  lemma {:induction false} CleanItemsUnchanged(items: seq<Json>)
    requires forall i :: 0 <= i < |items| ==> VisitedClean(items[i])
    ensures PruneItems(items) == items
    decreases items
  {
    if items == [] {
    } else {
      CleanItemsUnchanged(items[..|items| - 1]);
      PruneUnchangedIffClean(items[|items| - 1]);
    }
  }

  // ----- Operations -----------------------------------------------------

  datatype PathItem = PathItem(path: string, methods: seq<Field>)

  datatype InputSpec = InputSpec(paths: seq<PathItem>, schemas: seq<Field>)

  /** An operation object tagged "public"; tags, when present, is an array. */
  predicate IsPublic(data: Json) {
    data.Obj? &&
    match Get(data.fields, "tags")
    case Some(Arr(tags)) => Str("public") in tags
    case _ => false
  }

  const BEARER_AUTH := Arr([Obj([Field("BearerAuth", Arr([]))])])

  function ReplaceSecurity(fields: seq<Field>): seq<Field> {
    seq(|fields|, i requires 0 <= i < |fields| =>
      if fields[i].key == "security" then Field("security", BEARER_AUTH) else fields[i])
  }

  /** The copy of an operation that goes into the output. */
  function Endpoint(data: Json): Json
    requires data.Obj?
  {
    Obj(ReplaceSecurity(data.fields))
  }

  predicate IsInternalParameter(p: Json) {
    p.Obj? &&
    match Get(p.fields, "name")
    case Some(name) => NamesInternal(name)
    case None => false
  }

  function DropInternalParameters(items: seq<Json>): seq<Json> {
    if items == [] then []
    else
      var n := |items| - 1;
      DropInternalParameters(items[..n]) + (if IsInternalParameter(items[n]) then [] else [items[n]])
  }

  /** A member of an operation: parameters lose the internal ones, and go when empty. */
  function PruneOperationMember(f: Field): seq<Field> {
    if f.key == "parameters" && f.value.Arr? then
      var kept := DropInternalParameters(f.value.items);
      if kept == [] then [] else [Field(f.key, Arr(kept))]
    else [f]
  }

  function PruneOperationMembers(fields: seq<Field>): seq<Field> {
    if fields == [] then []
    else PruneOperationMembers(fields[..|fields| - 1]) + PruneOperationMember(fields[|fields| - 1])
  }

  function PruneOperation(data: Json): Json {
    match data
    case Obj(fields) => Obj(PruneOperationMembers(fields))
    case _ => data
  }

  lemma {:induction false} DroppedParametersRefs(items: seq<Json>)
    ensures RefsOfItems(DropInternalParameters(items)) <= RefsOfItems(items)
    ensures forall i :: 0 <= i < |DropInternalParameters(items)| ==>
                          !IsInternalParameter(DropInternalParameters(items)[i])
  {
    if items == [] {
    } else {
      var n := |items| - 1;
      DroppedParametersRefs(items[..n]);
      RefsOfItemsConcat(DropInternalParameters(items[..n]), [items[n]]);
      RefsOfOneItem(items[n]);
      assert DropInternalParameters(items[..n]) + [] == DropInternalParameters(items[..n]);
    }
  }

  lemma PrunedMemberRefs(f: Field)
    ensures RefsOfFields(PruneOperationMember(f)) <= Refs(f.value)
    ensures Get(PruneOperationMember(f), "$ref") == if f.key == "$ref" then Some(f.value) else None
  {
    var pruned := PruneOperationMember(f);
    assert "parameters"[0] != "$ref"[0];
    if pruned != [] {
      assert pruned == [pruned[0]];
      RefsOfOne(pruned[0]);
      GetOfOne(pruned[0], "$ref");
    }
    if f.key == "parameters" && f.value.Arr? {
      DroppedParametersRefs(f.value.items);
    }
  }

  lemma {:induction false} PrunedOperationRefs(fields: seq<Field>)
    ensures RefsOfFields(PruneOperationMembers(fields)) <= RefsOfFields(fields)
    ensures Get(PruneOperationMembers(fields), "$ref") == Get(fields, "$ref")
  {
    if fields == [] {
    } else {
      var n := |fields| - 1;
      var pruned := PruneOperationMember(fields[n]);
      PrunedOperationRefs(fields[..n]);
      PrunedMemberRefs(fields[n]);
      RefsOfFieldsConcat(PruneOperationMembers(fields[..n]), pruned);
      GetConcat(PruneOperationMembers(fields[..n]), pruned, "$ref");
    }
  }

  lemma BearerHasNoRefs()
    ensures Refs(BEARER_AUTH) == {}
  {
    var scheme := Field("BearerAuth", Arr([]));
    RefsOfOneItem(Obj([scheme]));
    RefsOfOne(scheme);
    assert "BearerAuth"[0] != "$ref"[0];
    GetOfOne(scheme, "$ref");
  }

  lemma {:induction false} ReplacedSecurityRefs(fields: seq<Field>)
    ensures RefsOfFields(ReplaceSecurity(fields)) <= RefsOfFields(fields)
    ensures Get(ReplaceSecurity(fields), "$ref") == Get(fields, "$ref")
  {
    if fields == [] {
    } else {
      var n := |fields| - 1;
      ReplacedSecurityRefs(fields[..n]);
      assert ReplaceSecurity(fields)[..n] == ReplaceSecurity(fields[..n]);
      assert "security"[0] != "$ref"[0];
      BearerHasNoRefs();
    }
  }

  /** An operation of the output refers to nothing its original did not. */
  lemma OutputOperationRefs(data: Json)
    requires data.Obj?
    ensures Refs(PruneOperation(Endpoint(data))) <= Refs(data)
  {
    ReplacedSecurityRefs(data.fields);
    PrunedOperationRefs(ReplaceSecurity(data.fields));
  }

  // ----- transform_openapi ----------------------------------------------

  function PublicOperations(methods: seq<Field>): seq<Field> {
    if methods == [] then []
    else
      var n := |methods| - 1;
      PublicOperations(methods[..n]) +
      (if IsPublic(methods[n].value) then [Field(methods[n].key, Endpoint(methods[n].value))] else [])
  }

  /** A path appears in the output with its first public operation. */
  function PublicPaths(paths: seq<PathItem>): seq<PathItem> {
    if paths == [] then []
    else
      var n := |paths| - 1;
      var operations := PublicOperations(paths[n].methods);
      PublicPaths(paths[..n]) + (if operations == [] then [] else [PathItem(paths[n].path, operations)])
  }

  function OperationRefs(methods: seq<Field>): set<string> {
    if methods == [] then {}
    else
      var n := |methods| - 1;
      OperationRefs(methods[..n]) + (if IsPublic(methods[n].value) then Refs(methods[n].value) else {})
  }

  function PublicRefs(paths: seq<PathItem>): set<string> {
    if paths == [] then {}
    else PublicRefs(paths[..|paths| - 1]) + OperationRefs(paths[|paths| - 1].methods)
  }

  function PruneOperations(methods: seq<Field>): seq<Field> {
    seq(|methods|, i requires 0 <= i < |methods| => Field(methods[i].key, PruneOperation(methods[i].value)))
  }

  function PrunePaths(paths: seq<PathItem>): seq<PathItem> {
    seq(|paths|, i requires 0 <= i < |paths| => PathItem(paths[i].path, PruneOperations(paths[i].methods)))
  }

  function PruneSchemas(schemas: seq<Field>): seq<Field> {
    seq(|schemas|, i requires 0 <= i < |schemas| => Field(schemas[i].key, PruneSchema(schemas[i].value)))
  }

  ghost predicate UsableOperations(methods: seq<Field>) {
    forall i :: 0 <= i < |methods| && IsPublic(methods[i].value) ==> RefsAreStrings(methods[i].value)
  }

  /** The references that the collector will meet are strings. */
  ghost predicate UsableSpec(input: InputSpec) {
    && UsableSchemas(input.schemas)
    && forall i :: 0 <= i < |input.paths| ==> UsableOperations(input.paths[i].methods)
  }

  /** The document under construction, edited in place by the last step. */
  class DocsSpec {
    var paths: seq<PathItem>
    var schemas: seq<Field>

    constructor ()
      ensures paths == [] && schemas == []
    {
      paths, schemas := [], [];
    }

    method AddPath(item: PathItem)
      modifies this`paths
      ensures paths == old(paths) + [item]
    {
      paths := paths + [item];
    }

    method AddSchema(name: string, schema: Json)
      modifies this`schemas
      ensures schemas == old(schemas) + [Field(name, schema)]
    {
      schemas := schemas + [Field(name, schema)];
    }

    method RemoveInternalParameters()
      modifies this
      ensures paths == PrunePaths(old(paths))
      ensures schemas == PruneSchemas(old(schemas))
    {
      PruneAllPaths();
      PruneAllSchemas();
    }

    method PruneAllPaths()
      modifies this`paths
      ensures paths == PrunePaths(old(paths))
    {
      hide PruneOperations;
      ghost var before, after := paths, PrunePaths(paths);
      for i := 0 to |paths|
        invariant |paths| == |before|
        invariant forall k :: 0 <= k < i ==> paths[k] == after[k]
        invariant forall k :: i <= k < |before| ==> paths[k] == before[k]
      {
        paths := paths[i := PathItem(paths[i].path, PruneOperations(paths[i].methods))];
      }
      assert paths == after;
    }

    method PruneAllSchemas()
      modifies this`schemas
      ensures schemas == PruneSchemas(old(schemas))
    {
      hide PruneSchema;
      ghost var before, after := schemas, PruneSchemas(schemas);
      for i := 0 to |schemas|
        invariant |schemas| == |before|
        invariant forall k :: 0 <= k < i ==> schemas[k] == after[k]
        invariant forall k :: i <= k < |before| ==> schemas[k] == before[k]
      {
        schemas := schemas[i := Field(schemas[i].key, PruneSchema(schemas[i].value))];
      }
      assert schemas == after;
    }
  }

  /** One path: its public operations, and the references they add. */
  method CollectOperations(methods: seq<Field>, refs: set<string>) returns (operations: seq<Field>, all: set<string>)
    requires UsableOperations(methods)
    ensures operations == PublicOperations(methods)
    ensures all == refs + OperationRefs(methods)
  {
    operations, all := [], refs;
    for i := 0 to |methods|
      invariant operations == PublicOperations(methods[..i])
      invariant all == refs + OperationRefs(methods[..i])
    {
      assert methods[..i + 1][..i] == methods[..i];
      var data := methods[i].value;
      if IsPublic(data) {
        operations := operations + [Field(methods[i].key, Endpoint(data))];
        all := CollectSchemaRefs(data, all);
      }
    }
    assert methods[..|methods|] == methods;
  }

  /** The schemas of the output before pruning: those named and present in the input. */
  ghost predicate KeepsNamed(input: seq<Field>, names: set<string>, kept: seq<Field>) {
    forall n :: Get(kept, n) == if n in names then Get(input, n) else None
  }

  lemma AppendNamed(input: seq<Field>, names: set<string>, kept: seq<Field>, name: string)
    requires KeepsNamed(input, names, kept) && Get(input, name).Some?
    ensures KeepsNamed(input, names + {name}, kept + [Field(name, Get(input, name).value)])
  {
    var last := Field(name, Get(input, name).value);
    forall n ensures Get(kept + [last], n) == if n == name then Some(last.value) else Get(kept, n) {
      GetConcat(kept, [last], n);
      GetOfOne(last, n);
    }
  }

  lemma {:induction false} PrunedSchemasGet(schemas: seq<Field>)
    ensures forall n :: Get(PruneSchemas(schemas), n) ==
                        match Get(schemas, n) case None => None case Some(schema) => Some(PruneSchema(schema))
  {
    if schemas == [] {
    } else {
      var n := |schemas| - 1;
      PrunedSchemasGet(schemas[..n]);
      assert PruneSchemas(schemas)[..n] == PruneSchemas(schemas[..n]);
    }
  }

  method TransformOpenApi(input: InputSpec) returns (out: DocsSpec, ghost reached: set<string>)
    requires UsableSpec(input)
    ensures fresh(out)
    ensures out.paths == PrunePaths(PublicPaths(input.paths))
    ensures IsClosure(input.schemas, PublicRefs(input.paths), reached)
    ensures forall n :: Get(out.schemas, n) == if n in reached && Get(input.schemas, n).Some?
                                               then Some(PruneSchema(Get(input.schemas, n).value)) else None
  {
    out := new DocsSpec();
    var initialRefs: set<string> := {};
    for i := 0 to |input.paths|
      invariant fresh(out) && out.schemas == []
      invariant out.paths == PublicPaths(input.paths[..i])
      invariant initialRefs == PublicRefs(input.paths[..i])
    {
      assert input.paths[..i + 1][..i] == input.paths[..i];
      var operations, refs := CollectOperations(input.paths[i].methods, initialRefs);
      initialRefs := refs;
      if operations != [] {
        out.AddPath(PathItem(input.paths[i].path, operations));
      }
    }
    assert input.paths[..|input.paths|] == input.paths;
    var allRefs := GetAllReferencedSchemas(input.schemas, initialRefs);
    reached := allRefs;
    var left := allRefs;
    while left != {}
      invariant fresh(out) && left <= allRefs
      invariant out.paths == PublicPaths(input.paths)
      invariant KeepsNamed(input.schemas, allRefs - left, out.schemas)
      decreases left
    {
      var name :| name in left;
      left := left - {name};
      var schema := Get(input.schemas, name);
      if schema.Some? {
        AppendNamed(input.schemas, allRefs - left - {name}, out.schemas, name);
        out.AddSchema(name, schema.value);
      }
    }
    PrunedSchemasGet(out.schemas);
    out.RemoveInternalParameters();
  }

  // ----- The output is reference-closed ---------------------------------

  lemma {:induction false} PublicOperationsRefs(methods: seq<Field>, i: nat)
    requires i < |PublicOperations(methods)|
    ensures Refs(PruneOperation(PublicOperations(methods)[i].value)) <= OperationRefs(methods)
  {
    var n := |methods| - 1;
    if i < |PublicOperations(methods[..n])| {
      PublicOperationsRefs(methods[..n], i);
    } else {
      OutputOperationRefs(methods[n].value);
    }
  }

  lemma {:induction false} PublicPathsRefs(paths: seq<PathItem>, i: nat, j: nat)
    requires i < |PublicPaths(paths)| && j < |PublicPaths(paths)[i].methods|
    ensures Refs(PruneOperation(PublicPaths(paths)[i].methods[j].value)) <= PublicRefs(paths)
  {
    var n := |paths| - 1;
    if i < |PublicPaths(paths[..n])| {
      PublicPathsRefs(paths[..n], i, j);
    } else {
      PublicOperationsRefs(paths[n].methods, j);
    }
  }

  /** The references left in the output: those of its operations and of its schemas. */
  ghost predicate RefersTo(paths: seq<PathItem>, schemas: seq<Field>, name: string) {
    || (exists i, j :: 0 <= i < |paths| && 0 <= j < |paths[i].methods| && Mentions(paths[i].methods[j].value, name))
    || (exists n :: SchemaMentions(schemas, n, name))
  }

  /**
   Every schema that the finished document refers to is in it, if the input had it: the
   promise is about what is left after all removals.
   */
  lemma OutputReferenceClosed(
    input: InputSpec, paths: seq<PathItem>, schemas: seq<Field>, reached: set<string>, name: string)
    requires paths == PrunePaths(PublicPaths(input.paths))
    requires IsClosure(input.schemas, PublicRefs(input.paths), reached)
    requires forall n :: Get(schemas, n) == if n in reached && Get(input.schemas, n).Some?
                                            then Some(PruneSchema(Get(input.schemas, n).value)) else None
    requires RefersTo(paths, schemas, name)
    ensures Get(input.schemas, name).Some? <==> Get(schemas, name).Some?
  {
    hide Mentions, Refs, PruneSchema, PruneOperation;
    if i, j :| 0 <= i < |paths| && 0 <= j < |paths[i].methods| && Mentions(paths[i].methods[j].value, name) {
      RefsMeaning(paths[i].methods[j].value, name);
      PublicPathsRefs(input.paths, i, j);
      assert name in reached;
    } else {
      var n :| SchemaMentions(schemas, n, name);
      RefsMeaning(Get(schemas, n).value, name);
      PruneAddsNoRefs(Get(input.schemas, n).value);
      RefsMeaning(Get(input.schemas, n).value, name);
      assert SchemaMentions(input.schemas, n, name);
      assert name in reached;
    }
  }

  lemma {:induction false} MembersClean(fields: seq<Field>, f: Field)
    requires f in PruneOperationMembers(fields) && f.key == "parameters" && f.value.Arr?
    ensures f.value.items != []
    ensures forall i :: 0 <= i < |f.value.items| ==> !IsInternalParameter(f.value.items[i])
  {
    var n := |fields| - 1;
    if f in PruneOperationMembers(fields[..n]) {
      MembersClean(fields[..n], f);
    } else {
      assert f in PruneOperationMember(fields[n]);
      if fields[n].key == "parameters" && fields[n].value.Arr? {
        DroppedParametersRefs(fields[n].value.items);
      }
    }
  }

  /** No internal parameter is left in an operation of the output. */
  lemma {:induction false} OperationsClean(data: Json, f: Field)
    requires data.Obj? && PruneOperation(data).Obj?
    requires f in PruneOperation(data).fields && f.key == "parameters" && f.value.Arr?
    ensures f.value.items != []
    ensures forall i :: 0 <= i < |f.value.items| ==> !IsInternalParameter(f.value.items[i])
  {
    MembersClean(data.fields, f);
  }
}
