/**
 The public OpenAPI document: backend/scripts/transform_openapi_for_docs.py.

 A parsed document is a Json value; a dict is the sequence of its members, whose keys are
 distinct. References are those of section 4.8.23 of the OpenAPI Specification 3.1.0.
 */
module OpenApiDocs {
  import opened Wrappers
  import opened JsonText

  const SCHEMA_PREFIX := "#/components/schemas/"

  predicate IsInternal(name: string) {
    name == "tenant_id" || name == "db_session"
  }

  // ----- References -----------------------------------------------------

  /** `ref.split("/")[-1]`. */
  function LastSegment(s: string): string {
    if s == "" || s[|s| - 1] == '/' then "" else LastSegment(s[..|s| - 1]) + [s[|s| - 1]]
  }

  /** The schema name that an object's own $ref points to. */
  function OwnRef(fields: seq<Field>): set<string> {
    match Get(fields, "$ref")
    case Some(Str(r)) => if SCHEMA_PREFIX <= r then {LastSegment(r)} else {}
    case _ => {}
  }

  /** All schema names that a value refers to, at any depth. */
  function Refs(j: Json): set<string>
    decreases j
  {
    match j
    case Obj(fields) => OwnRef(fields) + RefsOfFields(fields)
    case Arr(items) => RefsOfItems(items)
    case _ => {}
  }

  function RefsOfFields(fields: seq<Field>): set<string>
    decreases fields
  {
    if fields == [] then {} else RefsOfFields(fields[..|fields| - 1]) + Refs(fields[|fields| - 1].value)
  }

  function RefsOfItems(items: seq<Json>): set<string>
    decreases items
  {
    if items == [] then {} else RefsOfItems(items[..|items| - 1]) + Refs(items[|items| - 1])
  }

  // ----- What it means to refer -------------------------------------------

  /** A step into a value: to a member or an element, by position. */
  datatype Step = Member(i: nat) | Element(i: nat)

  /** The value that a path of steps leads to, if it leads anywhere. */
  function At(j: Json, path: seq<Step>): Option<Json>
    decreases path
  {
    if path == [] then Some(j)
    else
      match (j, path[0])
      case (Obj(fields), Member(i)) => if i < |fields| then At(fields[i].value, path[1..]) else None
      case (Arr(items), Element(i)) => if i < |items| then At(items[i], path[1..]) else None
      case _ => None
  }

  /** The value is an object whose $ref is a path into the schemas that ends in name. */
  ghost predicate IsRefTo(j: Json, name: string) {
    j.Obj? && exists before ::
                && Get(j.fields, "$ref") == Some(Str(before + "/" + name))
                && SCHEMA_PREFIX <= before + "/" + name
                && '/' !in name
  }

  /** Somewhere inside the value, at any depth, an object refers to name. */
  ghost predicate Mentions(j: Json, name: string) {
    exists path :: At(j, path).Some? && IsRefTo(At(j, path).value, name)
  }

  lemma {:induction false} SegmentSplits(s: string)
    requires '/' in s
    ensures exists before :: s == before + "/" + LastSegment(s)
    ensures '/' !in LastSegment(s)
  {
    var n := |s| - 1;
    if s[n] == '/' {
      assert s == s[..n] + "/" + "";
    } else {
      assert s == s[..n] + [s[n]];
      assert '/' in s[..n];
      SegmentSplits(s[..n]);
      var before :| s[..n] == before + "/" + LastSegment(s[..n]);
      assert s == before + "/" + LastSegment(s);
    }
  }

  lemma {:induction false} SegmentIs(before: string, name: string)
    requires '/' !in name
    ensures LastSegment(before + "/" + name) == name
  {
    var s := before + "/" + name;
    if name == "" {
      assert s[|s| - 1] == '/';
    } else {
      var n := |name| - 1;
      assert s[..|s| - 1] == before + "/" + name[..n];
      SegmentIs(before, name[..n]);
      assert name == name[..n] + [name[n]];
    }
  }

  lemma OwnRefMeaning(fields: seq<Field>, name: string)
    ensures name in OwnRef(fields) <==> IsRefTo(Obj(fields), name)
  {
    match Get(fields, "$ref")
    case Some(Str(r)) =>
      if SCHEMA_PREFIX <= r {
        assert r[1] == '/';
        SegmentSplits(r);
        var before :| r == before + "/" + LastSegment(r);
      }
      if IsRefTo(Obj(fields), name) {
        var before :| Get(fields, "$ref") == Some(Str(before + "/" + name)) && SCHEMA_PREFIX <= before + "/" + name &&
                      '/' !in name;
        SegmentIs(before, name);
      }
    case _ =>
  }

  lemma DeeperMember(fields: seq<Field>, i: nat, name: string)
    requires i < |fields| && Mentions(fields[i].value, name)
    ensures Mentions(Obj(fields), name)
  {
    var path :| At(fields[i].value, path).Some? && IsRefTo(At(fields[i].value, path).value, name);
    var longer := [Member(i)] + path;
    assert longer[1..] == path;
    assert At(Obj(fields), longer) == At(fields[i].value, path);
  }

  lemma DeeperElement(items: seq<Json>, i: nat, name: string)
    requires i < |items| && Mentions(items[i], name)
    ensures Mentions(Arr(items), name)
  {
    var path :| At(items[i], path).Some? && IsRefTo(At(items[i], path).value, name);
    var longer := [Element(i)] + path;
    assert longer[1..] == path;
    assert At(Arr(items), longer) == At(items[i], path);
  }

  lemma MentionedHere(j: Json, name: string)
    requires IsRefTo(j, name)
    ensures Mentions(j, name)
  {
    assert At(j, []) == Some(j);
  }

  function FieldValue(fields: seq<Field>, i: nat): (v: Json)
    requires i < |fields|
    ensures v == fields[i].value && v < Obj(fields)
  {
    assert fields[i] < Obj(fields);
    fields[i].value
  }

  lemma {:induction false} RefsOfFieldsAre(fields: seq<Field>, name: string)
    ensures name in RefsOfFields(fields) <==> exists i :: 0 <= i < |fields| && name in Refs(fields[i].value)
  {
    if fields == [] {
    } else {
      var n := |fields| - 1;
      RefsOfFieldsAre(fields[..n], name);
      if i :| 0 <= i < |fields| && name in Refs(fields[i].value) {
        assert i < n ==> name in Refs(fields[..n][i].value);
      }
      if name in RefsOfFields(fields[..n]) {
        var i :| 0 <= i < n && name in Refs(fields[..n][i].value);
        assert name in Refs(fields[i].value);
      }
    }
  }

  lemma {:induction false} RefsOfItemsAre(items: seq<Json>, name: string)
    ensures name in RefsOfItems(items) <==> exists i :: 0 <= i < |items| && name in Refs(items[i])
  {
    if items == [] {
    } else {
      var n := |items| - 1;
      RefsOfItemsAre(items[..n], name);
      if i :| 0 <= i < |items| && name in Refs(items[i]) {
        assert i < n ==> name in Refs(items[..n][i]);
      }
      if name in RefsOfItems(items[..n]) {
        var i :| 0 <= i < n && name in Refs(items[..n][i]);
        assert name in Refs(items[i]);
      }
    }
  }

  lemma {:induction false} RefsAreMentioned(j: Json, name: string)
    requires name in Refs(j)
    ensures Mentions(j, name)
    decreases j
  {
    hide IsRefTo, Mentions;
    match j
    case Obj(fields) =>
      if name in OwnRef(fields) {
        OwnRefMeaning(fields, name);
        MentionedHere(j, name);
      } else {
        RefsOfFieldsAre(fields, name);
        var i :| 0 <= i < |fields| && name in Refs(fields[i].value);
        assert FieldValue(fields, i) == fields[i].value;
        RefsAreMentioned(FieldValue(fields, i), name);
        DeeperMember(fields, i, name);
      }
    case Arr(items) =>
      RefsOfItemsAre(items, name);
      var i :| 0 <= i < |items| && name in Refs(items[i]);
      RefsAreMentioned(items[i], name);
      DeeperElement(items, i, name);
  }

  lemma {:induction false} MentionsAreCollected(j: Json, path: seq<Step>, name: string)
    requires At(j, path).Some? && IsRefTo(At(j, path).value, name)
    ensures name in Refs(j)
    decreases path
  {
    hide OwnRef;
    if path == [] {
      OwnRefMeaning(j.fields, name);
    } else {
      match (j, path[0])
      case (Obj(fields), Member(i)) =>
        MentionsAreCollected(fields[i].value, path[1..], name);
        RefsOfFieldsAre(fields, name);
      case (Arr(items), Element(i)) =>
        MentionsAreCollected(items[i], path[1..], name);
        RefsOfItemsAre(items, name);
    }
  }

  /** The collected names are exactly those mentioned anywhere inside. */
  lemma RefsMeaning(j: Json, name: string)
    ensures name in Refs(j) <==> Mentions(j, name)
  {
    hide IsRefTo;
    if name in Refs(j) {
      RefsAreMentioned(j, name);
    }
    if Mentions(j, name) {
      var path :| At(j, path).Some? && IsRefTo(At(j, path).value, name);
      MentionsAreCollected(j, path, name);
    }
  }

  /** A $ref is a string wherever it occurs; the collector fails on any other. */
  predicate RefsAreStrings(j: Json)
    decreases j
  {
    match j
    case Obj(fields) =>
      && (Get(fields, "$ref").Some? ==> Get(fields, "$ref").value.Str?)
      && (forall i :: 0 <= i < |fields| ==> RefsAreStrings(FieldValue(fields, i)))
    case Arr(items) => forall i :: 0 <= i < |items| ==> RefsAreStrings(items[i])
    case _ => true
  }

  method CollectSchemaRefs(obj: Json, refs: set<string>) returns (all: set<string>)
    requires RefsAreStrings(obj)
    ensures all == refs + Refs(obj)
    ensures forall name :: name in all <==> name in refs || Mentions(obj, name)
    decreases obj
  {
    hide Mentions;
    forall name ensures name in Refs(obj) <==> Mentions(obj, name) {
      RefsMeaning(obj, name);
    }
    all := refs;
    match obj {
      case Obj(fields) =>
        var own := Get(fields, "$ref");
        if own.Some? && SCHEMA_PREFIX <= own.value.s {
          all := all + {LastSegment(own.value.s)};
        }
        for i := 0 to |fields|
          invariant all == refs + OwnRef(fields) + RefsOfFields(fields[..i])
        {
          assert fields[..i + 1][..i] == fields[..i];
          all := CollectSchemaRefs(FieldValue(fields, i), all);
        }
        assert fields[..|fields|] == fields;
      case Arr(items) =>
        for i := 0 to |items|
          invariant all == refs + RefsOfItems(items[..i])
        {
          assert items[..i + 1][..i] == items[..i];
          all := CollectSchemaRefs(items[i], all);
        }
        assert items[..|items|] == items;
      case _ =>
    }
  }

  // ----- Reference closure ----------------------------------------------

  /** What an existing schema refers to; nothing for a dangling name. */
  function SchemaRefs(schemas: seq<Field>, name: string): set<string> {
    match Get(schemas, name)
    case None => {}
    case Some(schema) => Refs(schema)
  }

  /** An existing schema mentions a name; a dangling one mentions none. */
  ghost predicate SchemaMentions(schemas: seq<Field>, schema: string, name: string) {
    Get(schemas, schema).Some? && Mentions(Get(schemas, schema).value, name)
  }

  /** What the schemas of these names mention is among them. */
  ghost predicate Closed(schemas: seq<Field>, names: set<string>) {
    forall s, n :: s in names && SchemaMentions(schemas, s, n) ==> n in names
  }

  ghost predicate ClosedByRefs(schemas: seq<Field>, names: set<string>) {
    forall n :: n in names ==> SchemaRefs(schemas, n) <= names
  }

  lemma ClosedMeaning(schemas: seq<Field>, names: set<string>)
    ensures Closed(schemas, names) <==> ClosedByRefs(schemas, names)
  {
    hide Mentions, Refs;
    forall s, n ensures SchemaMentions(schemas, s, n) <==> n in SchemaRefs(schemas, s) {
      if Get(schemas, s).Some? {
        RefsMeaning(Get(schemas, s).value, n);
      }
    }
  }

  /** all is the least set holding initial and closed under the schemas' references. */
  ghost predicate IsClosure(schemas: seq<Field>, initial: set<string>, all: set<string>) {
    && initial <= all
    && Closed(schemas, all)
    && (forall t: set<string> :: initial <= t && Closed(schemas, t) ==> all <= t)
  }

  lemma ClosureUnique(schemas: seq<Field>, initial: set<string>, a: set<string>, b: set<string>)
    requires IsClosure(schemas, initial, a) && IsClosure(schemas, initial, b)
    ensures a == b
  {
    assert a <= b && b <= a;
  }

  lemma {:induction false} SchemaRefsWithin(schemas: seq<Field>, name: string)
    ensures SchemaRefs(schemas, name) <= RefsOfFields(schemas)
  {
    if schemas != [] && schemas[|schemas| - 1].key != name {
      SchemaRefsWithin(schemas[..|schemas| - 1], name);
    }
  }

  lemma {:induction false} GetIsMember(schemas: seq<Field>, name: string)
    ensures Get(schemas, name).Some? <==> exists i :: 0 <= i < |schemas| && schemas[i].key == name
    ensures Get(schemas, name).Some? ==>
              exists i :: 0 <= i < |schemas| && schemas[i] == Field(name, Get(schemas, name).value)
  {
    if schemas == [] {
    } else {
      var n := |schemas| - 1;
      GetIsMember(schemas[..n], name);
      if schemas[n].key != name {
        if i :| 0 <= i < |schemas| && schemas[i].key == name {
          assert schemas[..n][i].key == name;
        }
        if Get(schemas[..n], name).Some? {
          var i :| 0 <= i < n && schemas[..n][i] == Field(name, Get(schemas[..n], name).value);
          assert schemas[i] == schemas[..n][i];
        }
      }
    }
  }

  method ListOf(s: set<string>) returns (list: seq<string>)
    ensures forall x :: x in list <==> x in s
    ensures |list| == |s|
  {
    list := [];
    var left := s;
    while left != {}
      invariant forall x :: x in s <==> x in list || x in left
      invariant |list| + |left| == |s|
      decreases left
    {
      var x :| x in left;
      list := list + [x];
      left := left - {x};
    }
  }

  /** Names already met are either settled or still to be processed. */
  ghost predicate Settled(schemas: seq<Field>, all: set<string>, toProcess: seq<string>) {
    && (forall x :: x in toProcess ==> x in all)
    && (forall x :: x in all ==> x in toProcess || SchemaRefs(schemas, x) <= all)
  }

  ghost predicate UsableSchemas(schemas: seq<Field>) {
    forall i :: 0 <= i < |schemas| ==> RefsAreStrings(schemas[i].value)
  }

  /** The inner loop: each reference not met before is noted and queued. */
  method AddNew(newRefs: set<string>, all: set<string>, toProcess: seq<string>)
    returns (met: set<string>, queue: seq<string>)
    ensures met == all + newRefs
    ensures toProcess <= queue
    ensures forall x :: x in queue <==> x in toProcess || x in newRefs - all
    ensures newRefs <= all ==> queue == toProcess
  {
    met, queue := all, toProcess;
    var refs := ListOf(newRefs);
    for i := 0 to |refs|
      invariant met == all + set x | x in refs[..i]
      invariant toProcess <= queue
      invariant forall x :: x in queue <==> x in toProcess || (x in refs[..i] && x !in all)
      invariant newRefs <= all ==> queue == toProcess
    {
      if refs[i] !in met {
        met := met + {refs[i]};
        queue := queue + [refs[i]];
      }
      assert refs[..i + 1] == refs[..i] + [refs[i]];
    }
    assert refs[..|refs|] == refs;
  }

  lemma ClosureByRefs(schemas: seq<Field>, initial: set<string>, all: set<string>)
    requires initial <= all && ClosedByRefs(schemas, all)
    requires forall t: set<string> :: initial <= t && ClosedByRefs(schemas, t) ==> all <= t
    ensures IsClosure(schemas, initial, all)
  {
    hide ClosedByRefs, Closed;
    ClosedMeaning(schemas, all);
    forall t: set<string> | initial <= t && Closed(schemas, t) ensures all <= t {
      ClosedMeaning(schemas, t);
    }
  }

  method GetAllReferencedSchemas(schemas: seq<Field>, initial: set<string>) returns (all: set<string>)
    requires UsableSchemas(schemas)
    ensures IsClosure(schemas, initial, all)
  {
    all := initial;
    var toProcess := ListOf(initial);
    ghost var universe := initial + RefsOfFields(schemas);
    while toProcess != []
      invariant initial <= all <= universe
      invariant Settled(schemas, all, toProcess)
      invariant forall t: set<string> :: initial <= t && ClosedByRefs(schemas, t) ==> all <= t
      decreases universe - all, |toProcess|
    {
      var name := toProcess[|toProcess| - 1];
      var rest := toProcess[..|toProcess| - 1];
      assert toProcess == rest + [name];
      toProcess := rest;
      var schema := Get(schemas, name);
      if schema.Some? {
        GetIsMember(schemas, name);
        ghost var at :| 0 <= at < |schemas| && schemas[at] == Field(name, schema.value);
        assert RefsAreStrings(schemas[at].value);
        var newRefs := CollectSchemaRefs(schema.value, {});
        SchemaRefsWithin(schemas, name);
        all, toProcess := AddNew(newRefs, all, toProcess);
      }
    }
    ClosureByRefs(schemas, initial, all);
  }
}
