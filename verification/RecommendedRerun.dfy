/**
 Whole runs of the recommended-models generator: the version bump, the file on disk, and
 the promise that a second run on an unchanged catalog changes nothing.
 */
module RecommendedRerun {
  import opened Wrappers
  import opened Text
  import opened JsonText
  import opened RecommendedModels
  import opened RecommendedBuild
  import opened RecommendedNames

  // ----- _bump_version --------------------------------------------------

  predicate IsDigit(c: char) {
    '0' <= c <= '9'
  }

  predicate AllDigits(s: string) {
    forall i :: 0 <= i < |s| ==> IsDigit(s[i])
  }

  /** Where the last dot-separated part of a version starts. */
  function LastPart(version: string): (start: nat)
    ensures start <= |version|
    ensures forall i :: start <= i < |version| ==> version[i] != '.'
    ensures start > 0 ==> version[start - 1] == '.'
  {
    if version == "" then 0
    else if version[|version| - 1] == '.' then |version|
    else LastPart(version[..|version| - 1])
  }

  function BumpVersion(version: string): Result<string, string> {
    var start := LastPart(version);
    var last := version[start..];
    if last == "" || !AllDigits(last) then Failure("Cannot bump non-numeric version " + version)
    else Success(version[..start] + Decimal(ParseDecimal(last) + 1))
  }

  lemma {:induction false} NoLeadingZero(n: nat)
    requires n > 0
    ensures Decimal(n)[0] != '0'
  {
    if n >= 10 {
      NoLeadingZero(n / 10);
    }
  }

  /**
   A version can be bumped when its last part is a numeral. A bump keeps every part but the
   last and adds one to that, leading zeros dropped, so it never repeats.
   */
  lemma BumpMeaning(version: string)
    ensures BumpVersion(version).Success? <==>
            version[LastPart(version)..] != "" &&
            forall i :: LastPart(version) <= i < |version| ==> '0' <= version[i] <= '9'
    ensures var bumped := BumpVersion(version);
            bumped.Success? ==>
              && |bumped.value| > LastPart(version) && bumped.value[LastPart(version)] != '0'
              && version[..LastPart(version)] <= bumped.value
              && AllDigits(bumped.value[LastPart(version)..])
              && ParseDecimal(bumped.value[LastPart(version)..]) == ParseDecimal(version[LastPart(version)..]) + 1
              && bumped.value != version
  {
    var bumped := BumpVersion(version);
    if bumped.Success? {
      var start := LastPart(version);
      var next := Decimal(ParseDecimal(version[start..]) + 1);
      ParseDecimalOfDecimal(ParseDecimal(version[start..]) + 1);
      NoLeadingZero(ParseDecimal(version[start..]) + 1);
      assert bumped.value[start..] == next;
      assert bumped.value[..start] == version[..start];
    }
  }

  // ----- build_recommendations ------------------------------------------

  datatype Outcome = Outcome(file: ModelsFile, warnings: seq<string>)

  function Find(providers: seq<Provider>, name: string): Option<ProviderSection> {
    if providers == [] then None
    else if providers[|providers| - 1].name == name then Some(providers[|providers| - 1].section)
    else Find(providers[..|providers| - 1], name)
  }

  function ProviderNames(providers: seq<Provider>): set<string> {
    set p | p in providers :: p.name
  }

  datatype BuiltAll = BuiltAll(providers: seq<Provider>, warnings: seq<string>)

  function BuildAll(sections: seq<NamedRules>, inputs: Inputs, previous: seq<Provider>): Result<BuiltAll, string> {
    if sections == [] then Success(BuiltAll([], []))
    else
      var n := |sections| - 1;
      match BuildAll(sections[..n], inputs, previous)
      case Failure(e) => Failure(e)
      case Success(before) =>
        match SectionFrom(sections[n].name, sections[n].section, inputs, Find(previous, sections[n].name))
        case Failure(e) => Failure(e)
        case Success(built) =>
          Success(BuiltAll(before.providers + [Provider(sections[n].name, built.section)],
                           before.warnings + built.warnings))
  }

  predicate SectionChanged(p: Provider, previous: seq<Provider>) {
    var before := Find(previous, p.name);
    before.Some? && !SectionsEqual(p.section, before.value)
  }

  /** Some section that both files have differs to a reader, or the section names do. */
  predicate ModelsChanged(providers: seq<Provider>, previous: seq<Provider>) {
    || ProviderNames(providers) != ProviderNames(previous)
    || exists i :: 0 <= i < |providers| && SectionChanged(providers[i], previous)
  }

  function Recommendations(inputs: Inputs, previous: ModelsFile, stamp: string): Result<Outcome, string> {
    match BuildAll(inputs.rules.sections, inputs, previous.providers)
    case Failure(e) => Failure(e)
    case Success(built) =>
      if !ModelsChanged(built.providers, previous.providers) then Success(Outcome(previous, built.warnings))
      else
        match BumpVersion(previous.version)
        case Failure(e) => Failure(e)
        case Success(version) => Success(Outcome(ModelsFile(version, stamp, built.providers), built.warnings))
  }

  /** How one more section extends a build. */
  lemma BuildAllStep(sections: seq<NamedRules>, i: nat, inputs: Inputs, previous: seq<Provider>, before: BuiltAll)
    requires i < |sections| && BuildAll(sections[..i], inputs, previous) == Success(before)
    ensures BuildAll(sections[..i + 1], inputs, previous) ==
            match SectionFrom(sections[i].name, sections[i].section, inputs, Find(previous, sections[i].name))
            case Failure(e) => Failure(e)
            case Success(built) =>
              Success(BuiltAll(before.providers + [Provider(sections[i].name, built.section)],
                               before.warnings + built.warnings))
  {
    assert sections[..i + 1][..i] == sections[..i];
  }

  lemma {:induction false} AbortsAll(sections: seq<NamedRules>, n: nat, inputs: Inputs, previous: seq<Provider>)
    requires n <= |sections| && BuildAll(sections[..n], inputs, previous).Failure?
    ensures BuildAll(sections, inputs, previous) == BuildAll(sections[..n], inputs, previous)
    decreases |sections|
  {
    if n < |sections| {
      assert sections[..|sections| - 1][..n] == sections[..n];
      AbortsAll(sections[..|sections| - 1], n, inputs, previous);
    } else {
      assert sections[..n] == sections;
    }
  }

  method BuildProviders(inputs: Inputs, previous: seq<Provider>) returns (r: Result<BuiltAll, string>)
    ensures r == BuildAll(inputs.rules.sections, inputs, previous)
  {
    var providers: seq<Provider> := [];
    var warnings: seq<string> := [];
    var sections := inputs.rules.sections;
    for i := 0 to |sections|
      invariant BuildAll(sections[..i], inputs, previous) == Success(BuiltAll(providers, warnings))
    {
      BuildAllStep(sections, i, inputs, previous, BuiltAll(providers, warnings));
      var built := BuildSection(sections[i].name, sections[i].section, inputs,
                                Find(previous, sections[i].name), warnings);
      if built.Failure? {
        AbortsAll(sections, i + 1, inputs, previous);
        return Failure(built.error);
      }
      providers := providers + [Provider(sections[i].name, built.value.section)];
      warnings := built.value.warnings;
    }
    assert sections[..|sections|] == sections;
    return Success(BuiltAll(providers, warnings));
  }

  method BuildRecommendations(inputs: Inputs, previous: ModelsFile, stamp: string) returns (r: Result<Outcome, string>)
    ensures r == Recommendations(inputs, previous, stamp)
  {
    var built := BuildProviders(inputs, previous.providers);
    if built.Failure? {
      return Failure(built.error);
    }
    if !ModelsChanged(built.value.providers, previous.providers) {
      return Success(Outcome(previous, built.value.warnings));
    }
    match BumpVersion(previous.version)
    case Failure(e) => return Failure(e);
    case Success(version) =>
      return Success(Outcome(ModelsFile(version, stamp, built.value.providers), built.value.warnings));
  }

  /** Version and date move exactly when the visible models change. */
  lemma BumpOnlyOnChange(inputs: Inputs, previous: ModelsFile, stamp: string)
    ensures match Recommendations(inputs, previous, stamp)
            case Failure(_) => true
            case Success(outcome) =>
              var built := BuildAll(inputs.rules.sections, inputs, previous.providers);
              && built.Success?
              && (outcome.file == previous <==> !ModelsChanged(built.value.providers, previous.providers))
              && (outcome.file.version == previous.version <==> outcome.file == previous)
  {
    BumpMeaning(previous.version);
  }

  // ----- Catalog order --------------------------------------------------

  ghost predicate SameCatalog(a: Inputs, b: Inputs) {
    && a.rules == b.rules && a.today == b.today
    && multiset(a.catalog) == multiset(b.catalog)
    && DistinctIds(a.catalog)
  }

  lemma {:induction false} PicksOrderFree(
    sectionName: string, section: SectionRules, rules: seq<FamilyRule>, a: Inputs, b: Inputs)
    requires SameCatalog(a, b)
    ensures Picks(rules, a) == Picks(rules, b)
    ensures RuleWarnings(sectionName, rules, a) == RuleWarnings(sectionName, rules, b)
    ensures DefaultName(section, rules, a) == DefaultName(section, rules, b)
  {
    if rules == [] {
    } else {
      var n := |rules| - 1;
      PicksOrderFree(sectionName, section, rules[..n], a, b);
      SelectionOrderFree(rules[n], a, b);
    }
  }

  lemma {:induction false} BuildAllOrderFree(sections: seq<NamedRules>, a: Inputs, b: Inputs, previous: seq<Provider>)
    requires SameCatalog(a, b)
    ensures BuildAll(sections, a, previous) == BuildAll(sections, b, previous)
  {
    if sections == [] {
    } else {
      var n := |sections| - 1;
      BuildAllOrderFree(sections[..n], a, b, previous);
      PicksOrderFree(sections[n].name, sections[n].section, sections[n].section.rules, a, b);
    }
  }

  /** File, warnings and errors are the same for every order of the catalog. */
  lemma CatalogOrderIrrelevant(a: Inputs, b: Inputs, previous: ModelsFile, stamp: string)
    requires SameCatalog(a, b)
    ensures Recommendations(a, previous, stamp) == Recommendations(b, previous, stamp)
  {
    BuildAllOrderFree(a.rules.sections, a, b, previous.providers);
  }

  // ----- Re-running on the result ---------------------------------------

  ghost predicate DistinctSections(sections: seq<NamedRules>) {
    forall i, j :: 0 <= i < j < |sections| ==> sections[i].name != sections[j].name
  }

  /** The i-th provider is the section built from s, and is found under its name. */
  ghost predicate SectionBuilt(
    s: NamedRules, inputs: Inputs, previous: seq<Provider>, providers: seq<Provider>, i: nat) {
    var built := SectionFrom(s.name, s.section, inputs, Find(previous, s.name));
    && i < |providers|
    && built.Success?
    && providers[i] == Provider(s.name, built.value.section)
    && Find(providers, s.name) == Some(built.value.section)
  }

  /** Every section of a build comes from its rules, in order, and is found by its name. */
  lemma {:induction false} BuildAllSections(sections: seq<NamedRules>, inputs: Inputs, previous: seq<Provider>)
    requires DistinctSections(sections)
    requires BuildAll(sections, inputs, previous).Success?
    ensures var providers := BuildAll(sections, inputs, previous).value.providers;
            && |providers| == |sections|
            && forall i :: 0 <= i < |sections| ==> SectionBuilt(sections[i], inputs, previous, providers, i)
  {
    hide SectionFrom;
    if sections == [] {
    } else {
      var n := |sections| - 1;
      BuildAllSections(sections[..n], inputs, previous);
      assert sections[..n + 1] == sections;
      var before := BuildAll(sections[..n], inputs, previous).value;
      BuildAllStep(sections, n, inputs, previous, before);
      var providers := BuildAll(sections, inputs, previous).value.providers;
      forall i | 0 <= i < n
        ensures SectionBuilt(sections[i], inputs, previous, providers, i)
      {
        assert SectionBuilt(sections[..n][i], inputs, previous, before.providers, i);
        assert providers[..n] == before.providers;
      }
      assert SectionBuilt(sections[n], inputs, previous, providers, n);
    }
  }

  /** Building a section on b succeeds with the warnings it gives on a. */
  ghost predicate SectionAgain(s: NamedRules, inputs: Inputs, a: seq<Provider>, b: seq<Provider>) {
    var x := SectionFrom(s.name, s.section, inputs, Find(a, s.name));
    var y := SectionFrom(s.name, s.section, inputs, Find(b, s.name));
    x.Success? ==> y.Success? && y.value.warnings == x.value.warnings
  }

  /** A build succeeds with the same warnings when each of its sections does. */
  lemma {:induction false} BuildAllAgain(sections: seq<NamedRules>, inputs: Inputs, a: seq<Provider>, b: seq<Provider>)
    requires BuildAll(sections, inputs, a).Success?
    requires forall i :: 0 <= i < |sections| ==> SectionAgain(sections[i], inputs, a, b)
    ensures BuildAll(sections, inputs, b).Success?
    ensures BuildAll(sections, inputs, b).value.warnings == BuildAll(sections, inputs, a).value.warnings
  {
    if sections == [] {
    } else {
      var n := |sections| - 1;
      BuildAllAgain(sections[..n], inputs, a, b);
      assert SectionAgain(sections[n], inputs, a, b);
    }
  }

  lemma SettledDisplay(s: NamedRules, inputs: Inputs, previous: Option<ProviderSection>, built: ProviderSection)
    requires IsFresh(s, inputs)
    requires SectionFrom(s.name, s.section, inputs, previous).Success?
    requires built == SectionFrom(s.name, s.section, inputs, previous).value.section
    requires built.additional != []
    requires PreviousDisplay(Some(built), built.defaultModel) == RealOrNone(built.additional[0].displayName)
    ensures var again := SectionFrom(s.name, s.section, inputs, Some(built));
            && again.Success?
            && again.value.warnings == SectionFrom(s.name, s.section, inputs, previous).value.warnings
            && SectionsEqual(again.value.section, built)
  {
    hide VisibleView, PreviousDisplay, IndexOf, DefaultName, Picks, FreshModels, RuleWarnings;
    FreshSectionShape(s.name, s.section, inputs, previous);
    FreshSectionShape(s.name, s.section, inputs, Some(built));
    var again := SectionFrom(s.name, s.section, inputs, Some(built)).value.section;
    FreshView(built);
    FreshView(again);
  }

  /** Built on what it just built, a section succeeds again and looks the same. */
  lemma SectionSettles(s: NamedRules, inputs: Inputs, previous: Option<ProviderSection>, built: ProviderSection)
    requires SectionFrom(s.name, s.section, inputs, previous).Success?
    requires built == SectionFrom(s.name, s.section, inputs, previous).value.section
    ensures var again := SectionFrom(s.name, s.section, inputs, Some(built));
            && again.Success?
            && again.value.warnings == SectionFrom(s.name, s.section, inputs, previous).value.warnings
            && SectionsEqual(again.value.section, built)
  {
    if IsFresh(s, inputs) {
      FreshSectionShape(s.name, s.section, inputs, previous);
      PreviousDisplayOfFresh(built);
      SettledDisplay(s, inputs, previous, built);
    }
  }

  lemma SameNames(a: seq<Provider>, b: seq<Provider>)
    requires |a| == |b| && forall i :: 0 <= i < |a| ==> a[i].name == b[i].name
    ensures ProviderNames(a) == ProviderNames(b)
  {
    forall i | 0 <= i < |a| ensures a[i].name in ProviderNames(b) && b[i].name in ProviderNames(a) {
      assert a[i] in a && b[i] in b;
    }
  }

  /**
   A second run on the result of the first, with the same catalog, rules and day, returns
   it untouched with the same warnings.
   */
  lemma RerunUnchanged(inputs: Inputs, previous: ModelsFile, stamp: string, outcome: Outcome)
    requires DistinctSections(inputs.rules.sections)
    requires Recommendations(inputs, previous, stamp) == Success(outcome)
    ensures Recommendations(inputs, outcome.file, stamp) == Success(outcome)
  {
    if outcome.file != previous {
      var sections := inputs.rules.sections;
      var first := BuildAll(sections, inputs, previous.providers).value.providers;
      BuildAllSections(sections, inputs, previous.providers);
      forall i | 0 <= i < |sections|
        ensures SectionAgain(sections[i], inputs, previous.providers, first)
      {
        assert SectionBuilt(sections[i], inputs, previous.providers, first, i);
        SectionSettles(sections[i], inputs, Find(previous.providers, sections[i].name), first[i].section);
      }
      BuildAllAgain(sections, inputs, previous.providers, first);
      BuildAllSections(sections, inputs, first);
      var again := BuildAll(sections, inputs, first).value.providers;
      forall i | 0 <= i < |again|
        ensures again[i].name == first[i].name && !SectionChanged(again[i], first)
      {
        assert SectionBuilt(sections[i], inputs, previous.providers, first, i);
        assert SectionBuilt(sections[i], inputs, first, again, i);
        SectionSettles(sections[i], inputs, Find(previous.providers, sections[i].name), first[i].section);
      }
      SameNames(again, first);
    }
  }

  // ----- The file on disk -----------------------------------------------

  function ModelJson(m: RecommendedModel): Json {
    Obj([Field("name", Str(m.name))] +
        (if Truthy(m.displayName) then [Field("display_name", Str(m.displayName.value))] else []))
  }

  function ModelsJson(models: seq<RecommendedModel>): seq<Json> {
    seq(|models|, i requires 0 <= i < |models| => ModelJson(models[i]))
  }

  function SectionJson(section: ProviderSection): Json {
    Obj([Field("default_model", Str(section.defaultModel)),
         Field("additional_visible_models", Arr(ModelsJson(section.additional)))])
  }

  function ProvidersJson(providers: seq<Provider>): Json {
    Obj(seq(|providers|, i requires 0 <= i < |providers| =>
            Field(providers[i].name, SectionJson(providers[i].section))))
  }

  function FileJson(file: ModelsFile): Json {
    Obj([Field("version", Str(file.version)),
         Field("updated_at", Str(file.updatedAt)),
         Field("providers", ProvidersJson(file.providers))])
  }

  method SerializeSection(section: ProviderSection) returns (json: Json)
    ensures json == SectionJson(section)
  {
    var models: seq<Json> := [];
    for i := 0 to |section.additional|
      invariant models == ModelsJson(section.additional)[..i]
    {
      var model := section.additional[i];
      var entry := [Field("name", Str(model.name))];
      if Truthy(model.displayName) {
        entry := entry + [Field("display_name", Str(model.displayName.value))];
      }
      assert Obj(entry) == ModelJson(model);
      models := models + [Obj(entry)];
    }
    assert models == ModelsJson(section.additional);
    return Obj([Field("default_model", Str(section.defaultModel)), Field("additional_visible_models", Arr(models))]);
  }

  method Serialize(file: ModelsFile) returns (json: Json)
    ensures json == FileJson(file)
  {
    var providers: seq<Field> := [];
    for i := 0 to |file.providers|
      invariant providers == ProvidersJson(file.providers).fields[..i]
    {
      var section := SerializeSection(file.providers[i].section);
      providers := providers + [Field(file.providers[i].name, section)];
    }
    assert providers == ProvidersJson(file.providers).fields;
    return Obj([Field("version", Str(file.version)), Field("updated_at", Str(file.updatedAt)),
                Field("providers", Obj(providers))]);
  }

  function LoadModel(json: Json): Result<RecommendedModel, string> {
    if !json.Obj? then Failure("model is not an object")
    else
      match Get(json.fields, "name")
      case Some(Str(name)) =>
        (match Get(json.fields, "display_name")
         case Some(Str(display)) => Success(RecommendedModel(name, Some(display)))
         case _ => Success(RecommendedModel(name, None)))
      case _ => Failure("name")
  }

  function LoadModels(items: seq<Json>): Result<seq<RecommendedModel>, string> {
    if items == [] then Success([])
    else
      var n := |items| - 1;
      match (LoadModels(items[..n]), LoadModel(items[n]))
      case (Success(before), Success(last)) => Success(before + [last])
      case (Failure(e), _) => Failure(e)
      case (_, Failure(e)) => Failure(e)
  }

  function LoadSection(json: Json): Result<ProviderSection, string> {
    if !json.Obj? then Failure("section is not an object")
    else
      match Get(json.fields, "default_model")
      case Some(Str(name)) =>
        (match Get(json.fields, "additional_visible_models")
         case None => Success(ProviderSection(name, []))
         case Some(Arr(items)) =>
           (match LoadModels(items)
            case Success(models) => Success(ProviderSection(name, models))
            case Failure(e) => Failure(e))
         case _ => Failure("additional_visible_models"))
      case _ => Failure("default_model")
  }

  function LoadProviders(fields: seq<Field>): Result<seq<Provider>, string> {
    if fields == [] then Success([])
    else
      var n := |fields| - 1;
      match (LoadProviders(fields[..n]), LoadSection(fields[n].value))
      case (Success(before), Success(last)) => Success(before + [Provider(fields[n].key, last)])
      case (Failure(e), _) => Failure(e)
      case (_, Failure(e)) => Failure(e)
  }

  function LoadPrevious(json: Json): Result<ModelsFile, string> {
    if !json.Obj? then Failure("file is not an object")
    else
      match (Get(json.fields, "version"), Get(json.fields, "updated_at"), Get(json.fields, "providers"))
      case (Some(Str(version)), Some(Str(updatedAt)), Some(Obj(fields))) =>
        (match LoadProviders(fields)
         case Success(providers) => Success(ModelsFile(version, updatedAt, providers))
         case Failure(e) => Failure(e))
      case _ => Failure("file")
  }

  /** What a file loses on disk: an empty display name reads back as none. */
  function Normal(m: RecommendedModel): RecommendedModel {
    m.(displayName := RealOrNone(m.displayName))
  }

  function NormalModels(models: seq<RecommendedModel>): seq<RecommendedModel> {
    seq(|models|, i requires 0 <= i < |models| => Normal(models[i]))
  }

  function NormalSection(section: ProviderSection): ProviderSection {
    section.(additional := NormalModels(section.additional))
  }

  function NormalProviders(providers: seq<Provider>): seq<Provider> {
    seq(|providers|, i requires 0 <= i < |providers| =>
        Provider(providers[i].name, NormalSection(providers[i].section)))
  }

  function NormalFile(file: ModelsFile): ModelsFile {
    file.(providers := NormalProviders(file.providers))
  }

  lemma GetOfTwo(a: Field, b: Field)
    requires a.key != b.key
    ensures Get([a], a.key) == Some(a.value) && Get([a], b.key) == None
    ensures Get([a, b], a.key) == Some(a.value) && Get([a, b], b.key) == Some(b.value)
  {
    assert [a] == [] + [a] && [a, b] == [a] + [b];
    GetLast([], a, a.key);
    GetLast([], a, b.key);
    GetLast([a], b, a.key);
    GetLast([a], b, b.key);
  }

  lemma LoadModelJson(m: RecommendedModel)
    ensures LoadModel(ModelJson(m)) == Success(Normal(m))
    ensures ModelJson(Normal(m)) == ModelJson(m)
  {
    assert "name"[0] != "display_name"[0];
    var name := Field("name", Str(m.name));
    var display := Field("display_name", Str(if Truthy(m.displayName) then m.displayName.value else ""));
    GetOfTwo(name, display);
    assert ModelJson(m).fields == if Truthy(m.displayName) then [name, display] else [name];
  }

  lemma {:induction false} LoadModelsJson(models: seq<RecommendedModel>, n: nat)
    requires n <= |models|
    ensures LoadModels(ModelsJson(models)[..n]) == Success(NormalModels(models)[..n])
  {
    var items := ModelsJson(models);
    if n == 0 {
    } else {
      LoadModelsJson(models, n - 1);
      LoadModelJson(models[n - 1]);
      assert items[..n][..n - 1] == items[..n - 1];
      assert NormalModels(models)[..n] == NormalModels(models)[..n - 1] + [Normal(models[n - 1])];
    }
  }

  lemma LoadSectionJson(section: ProviderSection)
    ensures LoadSection(SectionJson(section)) == Success(NormalSection(section))
    ensures SectionJson(NormalSection(section)) == SectionJson(section)
  {
    var items := ModelsJson(section.additional);
    var name := Field("default_model", Str(section.defaultModel));
    var models := Field("additional_visible_models", Arr(items));
    assert SectionJson(section).fields == [] + [name] + [models];
    assert "default_model"[0] != "additional_visible_models"[0];
    GetLast([] + [name], models, "additional_visible_models");
    GetLast([] + [name], models, "default_model");
    GetLast([], name, "default_model");
    LoadModelsJson(section.additional, |section.additional|);
    assert items[..|items|] == items;
    assert NormalModels(section.additional)[..|section.additional|] == NormalModels(section.additional);
    forall i | 0 <= i < |items| ensures ModelJson(Normal(section.additional[i])) == items[i] {
      LoadModelJson(section.additional[i]);
    }
    assert ModelsJson(NormalModels(section.additional)) == items;
  }

  lemma {:induction false} LoadProvidersJson(providers: seq<Provider>, n: nat)
    requires n <= |providers|
    ensures LoadProviders(ProvidersJson(providers).fields[..n]) == Success(NormalProviders(providers)[..n])
  {
    var fields := ProvidersJson(providers).fields;
    if n == 0 {
    } else {
      LoadProvidersJson(providers, n - 1);
      LoadSectionJson(providers[n - 1].section);
      assert fields[..n][..n - 1] == fields[..n - 1];
      assert NormalProviders(providers)[..n] ==
             NormalProviders(providers)[..n - 1] + [NormalProviders(providers)[n - 1]];
    }
  }

  lemma ProvidersJsonNormal(providers: seq<Provider>)
    ensures ProvidersJson(NormalProviders(providers)) == ProvidersJson(providers)
    ensures LoadProviders(ProvidersJson(providers).fields) == Success(NormalProviders(providers))
  {
    var fields := ProvidersJson(providers).fields;
    forall i | 0 <= i < |fields| ensures ProvidersJson(NormalProviders(providers)).fields[i] == fields[i] {
      LoadSectionJson(providers[i].section);
    }
    assert ProvidersJson(NormalProviders(providers)).fields == fields;
    LoadProvidersJson(providers, |providers|);
    assert fields[..|fields|] == fields && NormalProviders(providers)[..|providers|] == NormalProviders(providers);
  }

  lemma GetOfThree(a: Field, b: Field, c: Field)
    requires a.key != b.key && a.key != c.key && b.key != c.key
    ensures Get([a, b, c], a.key) == Some(a.value)
    ensures Get([a, b, c], b.key) == Some(b.value)
    ensures Get([a, b, c], c.key) == Some(c.value)
  {
    assert [a, b, c] == [] + [a] + [b] + [c];
    forall key ensures Get([a, b, c], key) ==
                       if c.key == key then Some(c.value)
                       else if b.key == key then Some(b.value)
                       else if a.key == key then Some(a.value) else None
    {
      GetLast([] + [a] + [b], c, key);
      GetLast([] + [a], b, key);
      GetLast([], a, key);
    }
  }

  /** Loading what was serialized loses empty display names and nothing else. */
  lemma LoadSerialized(file: ModelsFile)
    ensures LoadPrevious(FileJson(file)) == Success(NormalFile(file))
    ensures FileJson(NormalFile(file)) == FileJson(file)
  {
    ProvidersJsonNormal(file.providers);
    assert "version"[0] != "updated_at"[0] && "version"[0] != "providers"[0] && "updated_at"[0] != "providers"[0];
    var fields := FileJson(file).fields;
    GetOfThree(fields[0], fields[1], fields[2]);
    assert fields == [fields[0], fields[1], fields[2]];
  }

  /** The round trip is exact when no display name is empty, and only then. */
  lemma RoundTripIffNoEmptyName(file: ModelsFile)
    ensures LoadPrevious(FileJson(file)) == Success(file) <==>
            forall i, j :: 0 <= i < |file.providers| && 0 <= j < |file.providers[i].section.additional| ==>
                             file.providers[i].section.additional[j].displayName != Some("")
  {
    LoadSerialized(file);
    var normal := NormalFile(file);
    if forall i, j :: 0 <= i < |file.providers| && 0 <= j < |file.providers[i].section.additional| ==>
                        file.providers[i].section.additional[j].displayName != Some("") {
      forall i | 0 <= i < |file.providers| ensures normal.providers[i] == file.providers[i] {
        assert NormalModels(file.providers[i].section.additional) == file.providers[i].section.additional;
      }
      assert normal.providers == file.providers;
    } else {
      var i, j :| 0 <= i < |file.providers| && 0 <= j < |file.providers[i].section.additional| &&
                  file.providers[i].section.additional[j].displayName == Some("");
      assert normal.providers[i].section.additional[j].displayName == None;
    }
  }

  // ----- Re-running on the file -----------------------------------------

  lemma {:induction false} IndexOfNormal(models: seq<RecommendedModel>, name: string)
    ensures IndexOf(NormalModels(models), name) == IndexOf(models, name)
  {
    if models == [] {
    } else {
      var n := |models| - 1;
      IndexOfNormal(models[..n], name);
      assert NormalModels(models)[..n] == NormalModels(models[..n]);
    }
  }

  lemma {:induction false} MergedNormal(byName: seq<RecommendedModel>, m: RecommendedModel)
    ensures Merged(NormalModels(byName), Normal(m)) == NormalModels(Merged(byName, m))
  {
    IndexOfNormal(byName, m.name);
    match IndexOf(byName, m.name)
    case None =>
      assert NormalModels(byName + [m]) == NormalModels(byName) + [Normal(m)];
    case Some(i) =>
      assert NormalModels(byName[i := m]) == NormalModels(byName)[i := Normal(m)];
  }

  lemma {:induction false} MergeUptoNormal(models: seq<RecommendedModel>, n: nat)
    requires n <= |models|
    ensures MergeUpto(NormalModels(models), n) == NormalModels(MergeUpto(models, n))
  {
    hide Merged;
    if n == 0 {
    } else {
      MergeUptoNormal(models, n - 1);
      MergedNormal(MergeUpto(models, n - 1), models[n - 1]);
    }
  }

  /** Readers of the file see the section as built, empty display names aside. */
  lemma ViewOfNormal(section: ProviderSection)
    ensures VisibleView(Some(NormalSection(section))) == NormalModels(VisibleView(Some(section)))
  {
    var models := AllModels(section);
    MergeUptoNormal(models, |models|);
    assert AllModels(NormalSection(section)) == NormalModels(models);
  }

  lemma PreviousDisplayOfNormal(section: ProviderSection, name: string)
    ensures PreviousDisplay(Some(NormalSection(section)), name) == RealOrNone(PreviousDisplay(Some(section), name))
  {
    ViewOfNormal(section);
    IndexOfNormal(VisibleView(Some(section)), name);
  }

  lemma {:induction false} FindNormal(providers: seq<Provider>, name: string)
    ensures Find(NormalProviders(providers), name) ==
            match Find(providers, name) case None => None case Some(s) => Some(NormalSection(s))
  {
    if providers == [] {
    } else {
      var n := |providers| - 1;
      FindNormal(providers[..n], name);
      assert NormalProviders(providers)[..n] == NormalProviders(providers[..n]);
    }
  }

  lemma {:induction false} FindIffNamed(providers: seq<Provider>, name: string)
    ensures Find(providers, name).Some? <==> name in ProviderNames(providers)
  {
    if providers == [] {
    } else {
      var n := |providers| - 1;
      FindIffNamed(providers[..n], name);
      assert providers == providers[..n] + [providers[n]];
    }
  }

  lemma AlikeOnFile(
    s: NamedRules, inputs: Inputs, previous: Option<ProviderSection>, built: ProviderSection, onFile: ProviderSection)
    requires IsFresh(s, inputs)
    requires SectionFrom(s.name, s.section, inputs, previous).Success?
    requires built == SectionFrom(s.name, s.section, inputs, previous).value.section
    requires SectionsEqual(built, onFile)
    ensures var again := SectionFrom(s.name, s.section, inputs, Some(NormalSection(onFile)));
            && again.Success?
            && again.value.warnings == SectionFrom(s.name, s.section, inputs, previous).value.warnings
            && SectionsEqual(again.value.section, built)
  {
    var name := DefaultName(s.section, s.section.rules, inputs).value;
    FreshSectionShape(s.name, s.section, inputs, previous);
    SectionSettles(s, inputs, previous, built);
    PreviousDisplayOfNormal(onFile, name);
    assert PreviousDisplay(Some(onFile), name) == PreviousDisplay(Some(built), name);
    assert SameToReaders(Some(built), Some(NormalSection(onFile)), name);
    FreshSectionsAlike(s.name, s.section, inputs, Some(built), Some(NormalSection(onFile)));
  }

  lemma NormalOfFresh(name: string, models: seq<RecommendedModel>)
    requires models != []
    ensures var view := [RecommendedModel(name, RealOrNone(models[0].displayName))] + models[1..];
            NormalModels(view) == view <==> forall j :: 1 <= j < |models| ==> models[j].displayName != Some("")
  {
    var view := [RecommendedModel(name, RealOrNone(models[0].displayName))] + models[1..];
    if j :| 1 <= j < |models| && models[j].displayName == Some("") {
      assert NormalModels(view)[j] != view[j];
    }
    if forall j :: 1 <= j < |models| ==> models[j].displayName != Some("") {
      forall j | 0 <= j < |view| ensures Normal(view[j]) == view[j] {
      }
    }
  }

  /**
   One section against the file: it is built as before, and it differs from what the file
   holds exactly when it is fresh and shows an empty display name.
   */
  lemma SectionAgainstFile(
    s: NamedRules, inputs: Inputs, previous: Option<ProviderSection>, built: ProviderSection, onFile: ProviderSection)
    requires SectionFrom(s.name, s.section, inputs, previous).Success?
    requires built == SectionFrom(s.name, s.section, inputs, previous).value.section
    requires SectionsEqual(built, onFile)
    ensures var again := SectionFrom(s.name, s.section, inputs, Some(NormalSection(onFile)));
            && again.Success?
            && again.value.warnings == SectionFrom(s.name, s.section, inputs, previous).value.warnings
            && (SectionsEqual(again.value.section, NormalSection(onFile)) <==>
                (IsFresh(s, inputs) ==> ShowsNoEmptyName(built)))
  {
    if IsFresh(s, inputs) {
      FreshSectionShape(s.name, s.section, inputs, previous);
      PreviousDisplayOfFresh(built);
      PreviousDisplayOfNormal(onFile, built.defaultModel);
      AlikeOnFile(s, inputs, previous, built, onFile);
      ViewOfNormal(onFile);
      FreshView(built);
      NormalOfFresh(built.defaultModel, built.additional);
    }
  }

  /** The file a run leaves shows the sections that run built. */
  lemma FileShowsBuilt(inputs: Inputs, previous: ModelsFile, stamp: string, outcome: Outcome, i: nat)
    requires DistinctSections(inputs.rules.sections)
    requires Recommendations(inputs, previous, stamp) == Success(outcome)
    requires i < |inputs.rules.sections|
    ensures var s := inputs.rules.sections[i];
            var built := BuildAll(inputs.rules.sections, inputs, previous.providers).value.providers;
            && SectionBuilt(s, inputs, previous.providers, built, i)
            && Find(outcome.file.providers, s.name).Some?
            && SectionsEqual(built[i].section, Find(outcome.file.providers, s.name).value)
  {
    var sections := inputs.rules.sections;
    var built := BuildAll(sections, inputs, previous.providers).value.providers;
    BuildAllSections(sections, inputs, previous.providers);
    assert SectionBuilt(sections[i], inputs, previous.providers, built, i);
    if !ModelsChanged(built, previous.providers) {
      assert built[i] in built;
      FindIffNamed(previous.providers, sections[i].name);
      assert !SectionChanged(built[i], previous.providers);
    }
  }

  lemma NamesOnFile(inputs: Inputs, previous: ModelsFile, stamp: string, outcome: Outcome)
    requires Recommendations(inputs, previous, stamp) == Success(outcome)
    ensures ProviderNames(NormalProviders(outcome.file.providers)) ==
            ProviderNames(BuildAll(inputs.rules.sections, inputs, previous.providers).value.providers)
  {
    SameNames(NormalProviders(outcome.file.providers), outcome.file.providers);
  }

  lemma ChangedOnFile(inputs: Inputs, previous: ModelsFile, stamp: string, outcome: Outcome)
    requires DistinctSections(inputs.rules.sections)
    requires Recommendations(inputs, previous, stamp) == Success(outcome)
    requires BuildAll(inputs.rules.sections, inputs, NormalProviders(outcome.file.providers)).Success?
    ensures var file := NormalProviders(outcome.file.providers);
            ModelsChanged(BuildAll(inputs.rules.sections, inputs, file).value.providers, file) <==>
            !NoEmptyNames(inputs)
  {
    var sections := inputs.rules.sections;
    var file := NormalProviders(outcome.file.providers);
    var built := BuildAll(sections, inputs, previous.providers).value.providers;
    var again := BuildAll(sections, inputs, file).value.providers;
    BuildAllSections(sections, inputs, previous.providers);
    BuildAllSections(sections, inputs, file);
    forall i | 0 <= i < |sections|
      ensures again[i].name == built[i].name
      ensures SectionChanged(again[i], file) <==>
              IsFresh(sections[i], inputs) && !NoEmptyPick(sections[i].section, inputs)
    {
      if IsFresh(sections[i], inputs) {
        ShownIffGiven(sections[i], inputs, Find(previous.providers, sections[i].name));
      }
      assert SectionBuilt(sections[i], inputs, file, again, i);
      FileShowsBuilt(inputs, previous, stamp, outcome, i);
      FindNormal(outcome.file.providers, sections[i].name);
      SectionAgainstFile(sections[i], inputs, Find(previous.providers, sections[i].name), built[i].section,
                         Find(outcome.file.providers, sections[i].name).value);
    }
    SameNames(again, built);
    NamesOnFile(inputs, previous, stamp, outcome);
  }

  /**
   Re-running on the file just written changes nothing, and so writes the same bytes,
   exactly when no pick is listed with an empty display name beside its default. Otherwise
   it moves the version, or fails with the error of a version that cannot be bumped.
   */
  lemma RerunThroughFile(inputs: Inputs, previous: ModelsFile, stamp: string, outcome: Outcome)
    requires DistinctSections(inputs.rules.sections)
    requires Recommendations(inputs, previous, stamp) == Success(outcome)
    ensures var loaded := LoadPrevious(FileJson(outcome.file));
            && loaded.Success?
            && FileJson(loaded.value) == FileJson(outcome.file)
            && var again := Recommendations(inputs, loaded.value, stamp);
            && (again == Success(Outcome(loaded.value, outcome.warnings)) <==> NoEmptyNames(inputs))
            && (!NoEmptyNames(inputs) ==>
                  match BumpVersion(outcome.file.version)
                  case Failure(e) => again == Failure(e)
                  case Success(version) =>
                    again.Success? && again.value.file.version == version != outcome.file.version)
  {
    var sections := inputs.rules.sections;
    var normal := NormalFile(outcome.file);
    LoadSerialized(outcome.file);
    var built := BuildAll(sections, inputs, previous.providers).value.providers;
    forall i | 0 <= i < |sections|
      ensures SectionAgain(sections[i], inputs, previous.providers, normal.providers)
    {
      FileShowsBuilt(inputs, previous, stamp, outcome, i);
      FindNormal(outcome.file.providers, sections[i].name);
      SectionAgainstFile(sections[i], inputs, Find(previous.providers, sections[i].name), built[i].section,
                         Find(outcome.file.providers, sections[i].name).value);
    }
    BuildAllAgain(sections, inputs, previous.providers, normal.providers);
    ChangedOnFile(inputs, previous, stamp, outcome);
    BumpMeaning(outcome.file.version);
  }

  // ----- Re-running over and over ---------------------------------------

  predicate IsBumpable(version: string) {
    BumpVersion(version).Success?
  }

  /** The number that a bump raises. */
  function Counter(version: string): nat
    requires IsBumpable(version)
  {
    ParseDecimal(version[LastPart(version)..])
  }

  lemma {:induction false} LastPartOfDigits(prefix: string, digits: string)
    requires AllDigits(digits) && LastPart(prefix) == |prefix|
    ensures LastPart(prefix + digits) == |prefix|
  {
    if digits == "" {
      assert prefix + digits == prefix;
    } else {
      var n := |digits| - 1;
      assert (prefix + digits)[..|prefix + digits| - 1] == prefix + digits[..n];
      LastPartOfDigits(prefix, digits[..n]);
    }
  }

  lemma {:induction false} PrefixEnds(version: string)
    ensures LastPart(version[..LastPart(version)]) == LastPart(version)
  {
    if version == "" || version[|version| - 1] == '.' {
      assert version[..|version|] == version;
    } else {
      var before := version[..|version| - 1];
      PrefixEnds(before);
      assert version[..LastPart(version)] == before[..LastPart(before)];
    }
  }

  /** A bumped version can be bumped again, and counts one more. */
  lemma BumpedIsBumpable(version: string)
    requires IsBumpable(version)
    ensures IsBumpable(BumpVersion(version).value)
    ensures Counter(BumpVersion(version).value) == Counter(version) + 1
  {
    var start := LastPart(version);
    var next := Decimal(ParseDecimal(version[start..]) + 1);
    PrefixEnds(version);
    LastPartOfDigits(version[..start], next);
    ParseDecimalOfDecimal(ParseDecimal(version[start..]) + 1);
    assert BumpVersion(version).value == version[..start] + next;
    assert (version[..start] + next)[start..] == next;
  }

  /** The file after n more runs, each on the file the one before wrote. */
  function Rerun(inputs: Inputs, file: ModelsFile, stamp: string, n: nat): Result<ModelsFile, string> {
    if n == 0 then Success(file)
    else
      match Rerun(inputs, file, stamp, n - 1)
      case Failure(e) => Failure(e)
      case Success(before) =>
        match LoadPrevious(FileJson(before))
        case Failure(e) => Failure(e)
        case Success(loaded) =>
          match Recommendations(inputs, loaded, stamp)
          case Failure(e) => Failure(e)
          case Success(outcome) => Success(outcome.file)
  }

  /** A version was written by a run, and carries this count. */
  ghost predicate WrittenWith(inputs: Inputs, file: ModelsFile, stamp: string, count: nat) {
    && IsBumpable(file.version)
    && Counter(file.version) == count
    && exists previous, warnings :: Recommendations(inputs, previous, stamp) == Success(Outcome(file, warnings))
  }

  lemma OneRerunBumps(inputs: Inputs, file: ModelsFile, stamp: string, count: nat)
    requires DistinctSections(inputs.rules.sections) && !NoEmptyNames(inputs)
    requires WrittenWith(inputs, file, stamp, count)
    ensures var loaded := LoadPrevious(FileJson(file));
            && loaded.Success?
            && var again := Recommendations(inputs, loaded.value, stamp);
            && again.Success? && WrittenWith(inputs, again.value.file, stamp, count + 1)
  {
    var previous, warnings :| Recommendations(inputs, previous, stamp) == Success(Outcome(file, warnings));
    hide Recommendations, LoadPrevious, FileJson, BumpVersion, Counter, NoEmptyNames;
    RerunThroughFile(inputs, previous, stamp, Outcome(file, warnings));
    BumpedIsBumpable(file.version);
    var loaded := LoadPrevious(FileJson(file)).value;
    var again := Recommendations(inputs, loaded, stamp).value;
    assert Recommendations(inputs, loaded, stamp) == Success(Outcome(again.file, again.warnings));
  }

  /**
   With an empty name beside a default the file never settles: every one of any number of
   re-runs succeeds and raises the version by one.
   */
  lemma {:induction false} EveryRerunBumps(
    inputs: Inputs, previous: ModelsFile, stamp: string, outcome: Outcome, n: nat)
    requires DistinctSections(inputs.rules.sections) && !NoEmptyNames(inputs)
    requires Recommendations(inputs, previous, stamp) == Success(outcome) && IsBumpable(outcome.file.version)
    ensures var file := Rerun(inputs, outcome.file, stamp, n);
            && file.Success?
            && WrittenWith(inputs, file.value, stamp, Counter(outcome.file.version) + n)
  {
    hide Recommendations, LoadPrevious, FileJson, BumpVersion, Counter, NoEmptyNames;
    if n == 0 {
      assert Recommendations(inputs, previous, stamp) == Success(Outcome(outcome.file, outcome.warnings));
    } else {
      EveryRerunBumps(inputs, previous, stamp, outcome, n - 1);
      OneRerunBumps(inputs, Rerun(inputs, outcome.file, stamp, n - 1).value, stamp,
                    Counter(outcome.file.version) + n - 1);
    }
  }

  /** And without one it settles at once. */
  lemma {:induction false} EveryRerunSettles(
    inputs: Inputs, previous: ModelsFile, stamp: string, outcome: Outcome, n: nat)
    requires DistinctSections(inputs.rules.sections) && NoEmptyNames(inputs)
    requires Recommendations(inputs, previous, stamp) == Success(outcome)
    ensures var file := Rerun(inputs, outcome.file, stamp, n);
            file.Success? && FileJson(file.value) == FileJson(outcome.file)
  {
    hide Recommendations, LoadPrevious, FileJson, NoEmptyNames;
    if n == 0 {
    } else {
      EveryRerunSettles(inputs, previous, stamp, outcome, n - 1);
      RerunThroughFile(inputs, previous, stamp, outcome);
    }
  }

  lemma OnePick(rule: FamilyRule, inputs: Inputs, model: CatalogModel)
    requires inputs.catalog == [model] && IsCandidate(rule, model, inputs.rules, inputs.today)
    ensures Picks([rule], inputs) == [model]
    ensures RuleWarnings("", [rule], inputs) == []
  {
    assert [model][..0] == [] && [rule][..0] == [];
    assert Candidates(rule, [model], inputs.rules, inputs.today) == [model];
  }

  lemma {:induction false} PinnedStays(section: SectionRules, rules: seq<FamilyRule>, inputs: Inputs)
    requires section.pinnedDefault.Some?
    ensures DefaultName(section, rules, inputs) == section.pinnedDefault
  {
    if rules == [] {
    } else {
      PinnedStays(section, rules[..|rules| - 1], inputs);
    }
  }

  /** A pinned default and one pick of another name, which gets the empty display name. */
  lemma EmptyNamePicked(s: NamedRules, inputs: Inputs, model: CatalogModel)
    requires Picks(s.section.rules, inputs) == [model] && s.section.pinnedDefault.Some?
    requires NativeName(model, s.section) != s.section.pinnedDefault.value
    requires GivesEmptyName(model, s.section, inputs.rules)
    ensures IsFresh(s, inputs) && !NoEmptyPick(s.section, inputs)
  {
    PinnedStays(s.section, s.section.rules, inputs);
    assert IsListed([model], 0, s.section);
  }

  lemma OneSection(s: NamedRules, inputs: Inputs)
    requires SectionFrom(s.name, s.section, inputs, None).Success?
    ensures BuildAll([s], inputs, []).Success?
    ensures BuildAll([s], inputs, []).value.providers ==
            [Provider(s.name, SectionFrom(s.name, s.section, inputs, None).value.section)]
    ensures ModelsChanged(BuildAll([s], inputs, []).value.providers, [])
  {
    assert [s][..0] == [];
    BuildAllStep([s], 0, inputs, [], BuiltAll([], []));
    assert [s][..1] == [s];
    var providers := BuildAll([s], inputs, []).value.providers;
    assert providers[0] in providers;
    assert providers[0].name in ProviderNames(providers);
  }

  lemma FirstVersion()
    ensures BumpVersion("1").Success?
  {
    assert LastPart("1"[..0]) == 0;
    assert LastPart("1") == 0 && "1"[0..] == "1";
  }

  /** An override gives a picked model the empty name. */
  lemma EmptyNameOverride() returns (inputs: Inputs, previous: ModelsFile, outcome: Outcome)
    ensures DistinctSections(inputs.rules.sections)
    ensures Recommendations(inputs, previous, "today") == Success(outcome)
    ensures !NoEmptyNames(inputs) && BumpVersion("1") == Success(outcome.file.version)
  {
    var rule := FamilyRule("any", "", _ => true, _ => false, false);
    var section := SectionRules(KeepFullId, true, map[], map["m" := ""], Some("d"), [rule]);
    var model := CatalogModel("m", "M", 0, None, None, [], None);
    var s := NamedRules("", section);
    inputs := Inputs(CurationRules(_ => false, false, x => x, [s]), [model], 0);
    previous := ModelsFile("1", "", []);
    assert "m"[0] != "d"[0];
    OnePick(rule, inputs, model);
    EmptyNamePicked(s, inputs, model);
    FreshSectionShape(s.name, section, inputs, None);
    OneSection(s, inputs);
    FirstVersion();
    outcome := Recommendations(inputs, previous, "today").value;
    assert inputs.rules.sections[0] == s;
  }

  /** A file that never settles: however often the generator is run again, the version moves. */
  lemma EmptyNameNeverSettles() returns (inputs: Inputs, previous: ModelsFile, outcome: Outcome)
    ensures DistinctSections(inputs.rules.sections)
    ensures Recommendations(inputs, previous, "today") == Success(outcome) && IsBumpable(outcome.file.version)
    ensures forall n: nat ::
              var file := Rerun(inputs, outcome.file, "today", n);
              && file.Success? && IsBumpable(file.value.version)
              && Counter(file.value.version) == Counter(outcome.file.version) + n
  {
    hide Recommendations, NoEmptyNames, Counter, Rerun;
    inputs, previous, outcome := EmptyNameOverride();
    FirstVersion();
    BumpedIsBumpable("1");
    forall n: nat
      ensures var file := Rerun(inputs, outcome.file, "today", n);
              && file.Success? && IsBumpable(file.value.version)
              && Counter(file.value.version) == Counter(outcome.file.version) + n
    {
      EveryRerunBumps(inputs, previous, "today", outcome, n);
    }
  }
}
