/**
 What the generated document of backend/scripts/transform_openapi_for_docs.py holds, member
 by member and next to the input: which operations and references there are, and what is
 left of an operation and of a schema.
 */
module OpenApiOutput {
  import opened Wrappers
  import opened Sequences
  import opened JsonText
  import opened OpenApiDocs
  import opened OpenApiTransform

  /** A dict: no key twice. */
  ghost predicate IsDict(fields: seq<Field>) {
    forall i, j :: 0 <= i < j < |fields| ==> fields[i].key != fields[j].key
  }

  // ----- Which operations ------------------------------------------------

  /** The method of a path is an object whose tags hold "public". */
  ghost predicate IsTagged(f: Field) {
    f.value.Obj? && exists tags :: Get(f.value.fields, "tags") == Some(Arr(tags)) && Str("public") in tags
  }

  lemma PublicIsTagged(f: Field)
    ensures IsPublic(f.value) <==> IsTagged(f)
  {
  }

  /** The operations kept of a path: those tagged, in their order, each as its endpoint. */
  lemma {:induction false} PublicOperationsMeaning(methods: seq<Field>)
    ensures var tagged := Filter(methods, (f: Field) => IsPublic(f.value));
            && |PublicOperations(methods)| == |tagged|
            && forall i :: 0 <= i < |tagged| ==>
                             && IsTagged(tagged[i])
                             && PublicOperations(methods)[i] == Field(tagged[i].key, Endpoint(tagged[i].value))
  {
    hide Endpoint;
    if methods == [] {
    } else {
      var n := |methods| - 1;
      PublicOperationsMeaning(methods[..n]);
      PublicIsTagged(methods[n]);
    }
  }

  lemma {:induction false} SomePublic(methods: seq<Field>)
    ensures PublicOperations(methods) != [] <==> exists i :: 0 <= i < |methods| && IsPublic(methods[i].value)
  {
    hide Endpoint, IsPublic;
    if methods == [] {
    } else {
      var n := |methods| - 1;
      SomePublic(methods[..n]);
      if i :| 0 <= i < |methods| && IsPublic(methods[i].value) {
        assert i < n ==> IsPublic(methods[..n][i].value);
      }
      if i :| 0 <= i < n && IsPublic(methods[..n][i].value) {
        assert IsPublic(methods[i].value);
      }
    }
  }

  /** The paths kept: those with such an operation, in their order. */
  lemma {:induction false} PublicPathsMeaning(paths: seq<PathItem>)
    ensures var kept :=
              Filter(paths, (p: PathItem) => exists i :: 0 <= i < |p.methods| && IsPublic(p.methods[i].value));
            && |PublicPaths(paths)| == |kept|
            && forall i :: 0 <= i < |kept| ==>
                             PublicPaths(paths)[i] == PathItem(kept[i].path, PublicOperations(kept[i].methods))
  {
    hide PublicOperations, IsPublic;
    if paths == [] {
    } else {
      var n := |paths| - 1;
      PublicPathsMeaning(paths[..n]);
      SomePublic(paths[n].methods);
    }
  }

  /** Some tagged operation of the path mentions the name. */
  ghost predicate PathMentions(methods: seq<Field>, name: string) {
    exists i :: 0 <= i < |methods| && IsTagged(methods[i]) && Mentions(methods[i].value, name)
  }

  lemma {:induction false} OperationRefsMeaning(methods: seq<Field>, name: string)
    ensures name in OperationRefs(methods) <==> PathMentions(methods, name)
  {
    hide IsTagged, IsPublic, Mentions, Refs;
    if methods == [] {
    } else {
      var n := |methods| - 1;
      OperationRefsMeaning(methods[..n], name);
      PublicIsTagged(methods[n]);
      RefsMeaning(methods[n].value, name);
      if i :| 0 <= i < |methods| && IsTagged(methods[i]) && Mentions(methods[i].value, name) {
        assert i < n ==> IsTagged(methods[..n][i]) && Mentions(methods[..n][i].value, name);
      }
      if i :| 0 <= i < n && IsTagged(methods[..n][i]) && Mentions(methods[..n][i].value, name) {
        assert IsTagged(methods[i]) && Mentions(methods[i].value, name);
      }
    }
  }

  /** The names that the closure starts from are those that tagged operations mention. */
  lemma {:induction false} PublicRefsMeaning(paths: seq<PathItem>, name: string)
    ensures name in PublicRefs(paths) <==> exists i :: 0 <= i < |paths| && PathMentions(paths[i].methods, name)
  {
    hide PathMentions;
    if paths == [] {
    } else {
      var n := |paths| - 1;
      PublicRefsMeaning(paths[..n], name);
      OperationRefsMeaning(paths[n].methods, name);
      if i :| 0 <= i < |paths| && PathMentions(paths[i].methods, name) {
        assert i < n ==> PathMentions(paths[..n][i].methods, name);
      }
      if i :| 0 <= i < n && PathMentions(paths[..n][i].methods, name) {
        assert PathMentions(paths[i].methods, name);
      }
    }
  }

  // ----- What is left of an operation -------------------------------------

  /** A parameter object named like one of the two internal ones. */
  ghost predicate IsInternalNamed(p: Json) {
    p.Obj? && (Get(p.fields, "name") == Some(Str("tenant_id")) || Get(p.fields, "name") == Some(Str("db_session")))
  }

  lemma {:induction false} KeptParameters(items: seq<Json>)
    ensures DropInternalParameters(items) == Filter(items, p => !IsInternalParameter(p))
    ensures forall p :: IsInternalParameter(p) <==> IsInternalNamed(p)
  {
    if items == [] {
    } else {
      KeptParameters(items[..|items| - 1]);
    }
  }

  /** What a member of an operation becomes: security is replaced, parameters lose internal ones. */
  ghost predicate IsOutputMember(key: string, before: Option<Json>, after: Option<Json>) {
    match before
    case None => after == None
    case Some(value) =>
      if key == "security" then
        after == Some(Arr([Obj([Field("BearerAuth", Arr([]))])]))
      else if key == "parameters" && value.Arr? then
        var kept := Filter(value.items, p => !IsInternalParameter(p));
        after == if kept == [] then None else Some(Arr(kept))
      else after == before
  }

  lemma {:induction false} SecurityMembers(fields: seq<Field>, key: string)
    ensures Get(ReplaceSecurity(fields), key) ==
            if key == "security" && Get(fields, key).Some? then Some(BEARER_AUTH) else Get(fields, key)
  {
    if fields == [] {
    } else {
      var n := |fields| - 1;
      SecurityMembers(fields[..n], key);
      assert ReplaceSecurity(fields)[..n] == ReplaceSecurity(fields[..n]);
    }
  }

  lemma NotTwice(fields: seq<Field>, key: string)
    requires IsDict(fields) && fields != [] && fields[|fields| - 1].key == key
    ensures Get(fields[..|fields| - 1], key).None?
  {
    GetNone(fields[..|fields| - 1], key);
  }

  lemma {:induction false} ParameterMembers(fields: seq<Field>, key: string)
    requires IsDict(fields)
    ensures Get(PruneOperationMembers(fields), key) ==
            match Get(fields, key)
            case None => None
            case Some(value) =>
              if key == "parameters" && value.Arr? && DropInternalParameters(value.items) == [] then None
              else if key == "parameters" && value.Arr? then Some(Arr(DropInternalParameters(value.items)))
              else Some(value)
  {
    hide DropInternalParameters;
    if fields == [] {
    } else {
      var n := |fields| - 1;
      ParameterMembers(fields[..n], key);
      var last := PruneOperationMember(fields[n]);
      GetConcat(PruneOperationMembers(fields[..n]), last, key);
      if fields[n].key == key {
        NotTwice(fields, key);
      }
      if last != [] {
        assert last == [last[0]];
        GetOfOne(last[0], key);
      }
    }
  }

  /** An operation of the document, member by member. */
  lemma OutputOperationMembers(data: Json, key: string)
    requires data.Obj? && IsDict(data.fields)
    ensures PruneOperation(Endpoint(data)).Obj?
    ensures IsOutputMember(key, Get(data.fields, key), Get(PruneOperation(Endpoint(data)).fields, key))
  {
    hide Get, DropInternalParameters;
    SecurityMembers(data.fields, key);
    ParameterMembers(ReplaceSecurity(data.fields), key);
    if Get(data.fields, key).Some? && Get(data.fields, key).value.Arr? {
      KeptParameters(Get(data.fields, key).value.items);
    }
    assert "security"[0] != "parameters"[0];
  }

  // ----- What is left of a schema -----------------------------------------

  lemma {:induction false} KeptProperties(fields: seq<Field>)
    ensures DropInternalKeys(fields) == Filter(fields, (f: Field) => f.key != "tenant_id" && f.key != "db_session")
  {
    if fields == [] {
    } else {
      KeptProperties(fields[..|fields| - 1]);
    }
  }

  lemma {:induction false} KeptNames(items: seq<Json>)
    ensures DropInternalNames(items) == Filter(items, j => j != Str("tenant_id") && j != Str("db_session"))
  {
    if items == [] {
    } else {
      KeptNames(items[..|items| - 1]);
    }
  }

  lemma {:induction false} PrunedItemsMeaning(items: seq<Json>)
    ensures |PruneItems(items)| == |items|
    ensures forall i :: 0 <= i < |items| ==> PruneItems(items)[i] == PruneSchema(items[i])
  {
    hide PruneSchema;
    if items == [] {
    } else {
      PrunedItemsMeaning(items[..|items| - 1]);
    }
  }

  /** The same list with each schema in it pruned. */
  ghost predicate EachPruned(before: seq<Json>, after: seq<Json>) {
    |after| == |before| && forall i :: 0 <= i < |before| ==> after[i] == PruneSchema(before[i])
  }

  /** What a member of a schema becomes; every other member stays. */
  ghost predicate IsPrunedMember(key: string, hasProperties: bool, before: Option<Json>, after: Option<Json>) {
    match before
    case None => after == None
    case Some(Obj(fields)) =>
      if key == "properties" then
        after == Some(Obj(Filter(fields, (f: Field) => f.key != "tenant_id" && f.key != "db_session")))
      else if key == "items" || key == "additionalProperties" then after == Some(PruneSchema(Obj(fields)))
      else after == before
    case Some(Arr(items)) =>
      if key == "required" && hasProperties then
        var kept := Filter(items, j => j != Str("tenant_id") && j != Str("db_session"));
        after == if kept == [] then None else Some(Arr(kept))
      else if key == "allOf" || key == "oneOf" || key == "anyOf" then
        after.Some? && after.value.Arr? && EachPruned(items, after.value.items)
      else after == before
    case Some(_) => after == before
  }

  lemma OneMemberPruned(f: Field, hasProperties: bool)
    ensures var pruned := PruneField(f, hasProperties);
            && |pruned| <= 1
            && (pruned != [] ==> pruned[0].key == f.key)
            && IsPrunedMember(f.key, hasProperties, Some(f.value), if pruned == [] then None else Some(pruned[0].value))
  {
    hide DropInternalKeys, DropInternalNames, PruneItems, Filter;
    match f.value
    case Obj(fields) => KeptProperties(fields);
    case Arr(items) =>
      KeptNames(items);
      PrunedItemsMeaning(items);
    case _ =>
  }

  lemma NothingPruned(key: string, hasProperties: bool)
    ensures IsPrunedMember(key, hasProperties, None, None)
  {
  }

  lemma NothingFound(key: string, hasProperties: bool, after: Option<Json>)
    requires IsPrunedMember(key, hasProperties, None, after)
    ensures after == None
  {
  }

  lemma {:induction false} FieldsPruned(fields: seq<Field>, hasProperties: bool, key: string)
    requires IsDict(fields)
    ensures IsPrunedMember(key, hasProperties, Get(fields, key), Get(PruneFields(fields, hasProperties), key))
  {
    hide IsPrunedMember, PruneField;
    if fields == [] {
      NothingPruned(key, hasProperties);
    } else {
      var n := |fields| - 1;
      FieldsPruned(fields[..n], hasProperties, key);
      var last := PruneField(fields[n], hasProperties);
      OneMemberPruned(fields[n], hasProperties);
      GetConcat(PruneFields(fields[..n], hasProperties), last, key);
      if fields[n].key == key {
        NotTwice(fields, key);
        NothingFound(key, hasProperties, Get(PruneFields(fields[..n], hasProperties), key));
      }
      if last != [] {
        assert last == [last[0]];
        GetOfOne(last[0], key);
      }
    }
  }

  /** The schema has an object under "properties". */
  ghost predicate HasPropertiesObject(fields: seq<Field>) {
    exists properties :: Get(fields, "properties") == Some(Obj(properties))
  }

  /** A schema of the document, member by member; what is no object stays as it is. */
  lemma PrunedSchemaMembers(j: Json, key: string)
    ensures !j.Obj? ==> PruneSchema(j) == j
    ensures j.Obj? && IsDict(j.fields) ==>
              && PruneSchema(j).Obj?
              && IsPrunedMember(key, HasPropertiesObject(j.fields), Get(j.fields, key), Get(PruneSchema(j).fields, key))
  {
    if j.Obj? && IsDict(j.fields) {
      FieldsPruned(j.fields, HasProperties(j.fields), key);
    }
  }

  // ----- The document ------------------------------------------------------

  /** The operation in the document stands for this one of the input. */
  ghost predicate IsOutputOperation(before: Field, after: Field) {
    && after.key == before.key && before.value.Obj? && after.value.Obj?
    && forall key :: IsOutputMember(key, Get(before.value.fields, key), Get(after.value.fields, key))
  }

  /** The tagged operations of the paths, in order, and no path without one. */
  ghost predicate IsPublicPart(before: seq<PathItem>, after: seq<PathItem>) {
    var kept := Filter(before, (p: PathItem) => exists i :: 0 <= i < |p.methods| && IsPublic(p.methods[i].value));
    && |after| == |kept|
    && forall i :: 0 <= i < |kept| ==>
                     var tagged := Filter(kept[i].methods, (f: Field) => IsPublic(f.value));
                     && after[i].path == kept[i].path
                     && |after[i].methods| == |tagged|
                     && forall j :: 0 <= j < |tagged| ==>
                                      IsTagged(tagged[j]) && IsOutputOperation(tagged[j], after[i].methods[j])
  }

  /** Operations of the input are dicts. */
  ghost predicate AreDicts(paths: seq<PathItem>) {
    forall i, j :: 0 <= i < |paths| && 0 <= j < |paths[i].methods| && paths[i].methods[j].value.Obj? ==>
                     IsDict(paths[i].methods[j].value.fields)
  }

  lemma OutputOperationIs(f: Field)
    requires IsTagged(f) && IsDict(f.value.fields)
    ensures IsOutputOperation(f, Field(f.key, PruneOperation(Endpoint(f.value))))
  {
    hide IsOutputMember, PruneOperation, Endpoint;
    forall key
      ensures PruneOperation(Endpoint(f.value)).Obj?
      ensures IsOutputMember(key, Get(f.value.fields, key), Get(PruneOperation(Endpoint(f.value)).fields, key))
    {
      OutputOperationMembers(f.value, key);
    }
    OutputOperationMembers(f.value, "");
  }

  lemma PathIsPublicPart(methods: seq<Field>)
    requires forall j :: 0 <= j < |methods| && methods[j].value.Obj? ==> IsDict(methods[j].value.fields)
    ensures var tagged := Filter(methods, (f: Field) => IsPublic(f.value));
            var after := PruneOperations(PublicOperations(methods));
            && |after| == |tagged|
            && forall j :: 0 <= j < |tagged| ==> IsTagged(tagged[j]) && IsOutputOperation(tagged[j], after[j])
  {
    hide PublicOperations, IsOutputOperation, PruneOperation, Endpoint, IsPublic;
    PublicOperationsMeaning(methods);
    var isPublic := (f: Field) => IsPublic(f.value);
    var tagged := Filter(methods, isPublic);
    forall j | 0 <= j < |tagged|
      ensures IsTagged(tagged[j]) && IsOutputOperation(tagged[j], PruneOperations(PublicOperations(methods))[j])
    {
      FilterKeeps(methods, isPublic, tagged[j]);
      assert tagged[j] in methods;
      OutputOperationIs(tagged[j]);
    }
  }

  /** The paths of the document are the public part of the input's. */
  lemma DocumentIsPublicPart(paths: seq<PathItem>)
    requires AreDicts(paths)
    ensures IsPublicPart(paths, PrunePaths(PublicPaths(paths)))
  {
    hide PublicOperations, PublicPaths, IsOutputOperation, PruneOperation, Endpoint, IsTagged, IsPublic;
    PublicPathsMeaning(paths);
    var somePublic := (p: PathItem) => exists i :: 0 <= i < |p.methods| && IsPublic(p.methods[i].value);
    var kept := Filter(paths, somePublic);
    var after := PrunePaths(PublicPaths(paths));
    forall i | 0 <= i < |kept|
      ensures var tagged := Filter(kept[i].methods, (f: Field) => IsPublic(f.value));
              && after[i].path == kept[i].path
              && |after[i].methods| == |tagged|
              && forall j :: 0 <= j < |tagged| ==>
                               IsTagged(tagged[j]) && IsOutputOperation(tagged[j], after[i].methods[j])
    {
      FilterKeeps(paths, somePublic, kept[i]);
      assert kept[i] in paths;
      PathIsPublicPart(kept[i].methods);
    }
  }
}
