/**
 The generator of recommended-models.json: backend/scripts/update_recommended_models.py.

 Regular expressions are predicates of the rules, dates are days, and a dict is a
 sequence of entries with distinct keys in insertion order.
 */
module RecommendedModels {
  import opened Wrappers
  import opened Sequences
  import opened Text

  datatype RecommendedModel = RecommendedModel(name: string, displayName: Option<string>)

  datatype ProviderSection = ProviderSection(defaultModel: string, additional: seq<RecommendedModel>)

  datatype Provider = Provider(name: string, section: ProviderSection)

  datatype ModelsFile = ModelsFile(version: string, updatedAt: string, providers: seq<Provider>)

  /** One catalog entry; expiration is None when absent or not a date. */
  datatype CatalogModel = CatalogModel(
    id: string,
    name: string,
    created: int,
    promptPrice: Option<string>,
    completionPrice: Option<string>,
    outputModalities: seq<string>,
    expiration: Option<int>)

  /** A family rule; an absent exclude pattern matches nothing. */
  datatype FamilyRule = FamilyRule(
    ruleLabel: string,
    vendorPrefix: string,
    include_: string -> bool,
    exclude: string -> bool,
    isDefaultSource: bool)

  datatype IdTransform = StripPrefix | StripPrefixDotsToDashes | KeepFullId

  datatype SectionRules = SectionRules(
    idTransform: IdTransform,
    emitDisplayName: bool,
    idOverrides: map<string, string>,
    displayNameOverrides: map<string, string>,
    pinnedDefault: Option<string>,
    rules: seq<FamilyRule>)

  datatype NamedRules = NamedRules(name: string, section: SectionRules)

  /** The curation rules; normalize is the lower-case alphanumeric form of a vendor. */
  datatype CurationRules = CurationRules(
    globalExclude: string -> bool,
    requireTextOutput: bool,
    normalize: string -> string,
    sections: seq<NamedRules>)

  /** Everything a section is built from besides the section before. */
  datatype Inputs = Inputs(rules: CurationRules, catalog: seq<CatalogModel>, today: int)

  // ----- Filters and selection ------------------------------------------

  predicate EndsWith(s: string, suffix: string) {
    |suffix| <= |s| && s[|s| - |suffix|..] == suffix
  }

  predicate IsFree(m: CatalogModel) {
    EndsWith(m.id, ":free") || (m.promptPrice == Some("0") && m.completionPrice == Some("0"))
  }

  predicate IsExpired(m: CatalogModel, today: int) {
    m.expiration.Some? && m.expiration.value <= today
  }

  predicate PassesGlobalFilters(m: CatalogModel, rules: CurationRules, today: int) {
    && !rules.globalExclude(m.id)
    && !IsFree(m)
    && !IsExpired(m, today)
    && (rules.requireTextOutput ==> "text" in m.outputModalities)
  }

  predicate IsCandidate(rule: FamilyRule, m: CatalogModel, rules: CurationRules, today: int) {
    && rule.vendorPrefix <= m.id
    && rule.include_(m.id)
    && !rule.exclude(m.id)
    && PassesGlobalFilters(m, rules, today)
  }

  /** The sort key (-created, id) of a is at most that of b. */
  predicate Precedes(a: CatalogModel, b: CatalogModel) {
    a.created > b.created || (a.created == b.created && AtMost(a.id, b.id))
  }

  function Candidates(
    rule: FamilyRule, catalog: seq<CatalogModel>, rules: CurationRules, today: int): seq<CatalogModel> {
    if catalog == [] then []
    else
      var n := |catalog| - 1;
      Candidates(rule, catalog[..n], rules, today) +
      (if IsCandidate(rule, catalog[n], rules, today) then [catalog[n]] else [])
  }

  /** Python's min: the first of the least elements. */
  function Newest(models: seq<CatalogModel>): CatalogModel
    requires models != []
  {
    var n := |models| - 1;
    if n == 0 then models[0]
    else
      var best := Newest(models[..n]);
      if Precedes(best, models[n]) then best else models[n]
  }

  function SelectForRule(rule: FamilyRule, inputs: Inputs): Option<CatalogModel> {
    var candidates := Candidates(rule, inputs.catalog, inputs.rules, inputs.today);
    if candidates == [] then None else Some(Newest(candidates))
  }

  lemma {:induction false} CandidatesAre(rule: FamilyRule, catalog: seq<CatalogModel>, rules: CurationRules, today: int)
    ensures forall m :: m in Candidates(rule, catalog, rules, today) <==>
                        m in catalog && IsCandidate(rule, m, rules, today)
  {
    if catalog == [] {
    } else {
      var n := |catalog| - 1;
      CandidatesAre(rule, catalog[..n], rules, today);
      assert catalog == catalog[..n] + [catalog[n]];
    }
  }

  lemma PrecedesTransitive(a: CatalogModel, b: CatalogModel, c: CatalogModel)
    requires Precedes(a, b) && Precedes(b, c)
    ensures Precedes(a, c)
  {
    if a.created == b.created == c.created {
      AtMostTransitive(a.id, b.id, c.id);
    }
  }

  lemma PrecedesTotal(a: CatalogModel, b: CatalogModel)
    ensures Precedes(a, b) || Precedes(b, a)
  {
    AtMostTotal(a.id, b.id);
  }

  lemma {:induction false} NewestIsLeast(models: seq<CatalogModel>)
    requires models != []
    ensures Newest(models) in models
    ensures forall m :: m in models ==> Precedes(Newest(models), m)
  {
    var n := |models| - 1;
    assert models == models[..n] + [models[n]];
    PrecedesTotal(models[n], models[n]);
    if n == 0 {
    } else {
      NewestIsLeast(models[..n]);
      var best := Newest(models[..n]);
      PrecedesTotal(best, models[n]);
      forall m | m in models ensures Precedes(Newest(models), m) {
        if m in models[..n] && !Precedes(best, models[n]) {
          PrecedesTransitive(models[n], best, m);
        }
      }
    }
  }

  /**
   What a rule may pick: an id of its vendor that its patterns and the global ones let
   through, with a price, not past its last day, and able to write text if that is asked.
   */
  ghost predicate IsEligible(rule: FamilyRule, m: CatalogModel, rules: CurationRules, today: int) {
    && (exists rest :: m.id == rule.vendorPrefix + rest)
    && rule.include_(m.id) && !rule.exclude(m.id) && !rules.globalExclude(m.id)
    && (forall start :: m.id != start + ":free")
    && (m.promptPrice != Some("0") || m.completionPrice != Some("0"))
    && (forall day :: m.expiration == Some(day) ==> today < day)
    && (rules.requireTextOutput ==> "text" in m.outputModalities)
  }

  lemma CandidateIsEligible(rule: FamilyRule, m: CatalogModel, rules: CurationRules, today: int)
    ensures IsCandidate(rule, m, rules, today) <==> IsEligible(rule, m, rules, today)
  {
    if rule.vendorPrefix <= m.id {
      assert m.id == rule.vendorPrefix + m.id[|rule.vendorPrefix|..];
    }
    if EndsWith(m.id, ":free") {
      assert m.id == m.id[..|m.id| - 5] + ":free";
    }
    if start :| m.id == start + ":free" {
      assert m.id[|m.id| - 5..] == ":free";
    }
  }

  /** No eligible model is newer; of those as new none has an id that comes first. */
  ghost predicate IsNewest(rule: FamilyRule, inputs: Inputs, pick: CatalogModel) {
    && pick in inputs.catalog && IsEligible(rule, pick, inputs.rules, inputs.today)
    && forall m :: m in inputs.catalog && IsEligible(rule, m, inputs.rules, inputs.today) ==>
                     && m.created <= pick.created
                     && (m.created == pick.created ==> AtMost(pick.id, m.id))
  }

  /** A rule picks the newest eligible model, with the id as tie-break, or nothing if there is none. */
  lemma SelectionMeaning(rule: FamilyRule, inputs: Inputs)
    ensures match SelectForRule(rule, inputs)
            case None => forall m :: m in inputs.catalog ==> !IsEligible(rule, m, inputs.rules, inputs.today)
            case Some(pick) => IsNewest(rule, inputs, pick)
  {
    hide IsCandidate, IsEligible;
    CandidatesAre(rule, inputs.catalog, inputs.rules, inputs.today);
    forall m ensures IsCandidate(rule, m, inputs.rules, inputs.today) <==>
                     IsEligible(rule, m, inputs.rules, inputs.today) {
      CandidateIsEligible(rule, m, inputs.rules, inputs.today);
    }
    var candidates := Candidates(rule, inputs.catalog, inputs.rules, inputs.today);
    if candidates != [] {
      NewestIsLeast(candidates);
    }
  }

  ghost predicate DistinctIds(catalog: seq<CatalogModel>) {
    forall a, b :: a in catalog && b in catalog && a.id == b.id ==> a == b
  }

  /** Which model a rule picks does not depend on the order of the catalog. */
  lemma SelectionOrderFree(rule: FamilyRule, a: Inputs, b: Inputs)
    requires a.rules == b.rules && a.today == b.today
    requires multiset(a.catalog) == multiset(b.catalog) && DistinctIds(a.catalog)
    ensures SelectForRule(rule, a) == SelectForRule(rule, b)
  {
    SelectionMeaning(rule, a);
    SelectionMeaning(rule, b);
    forall m ensures m in a.catalog <==> m in b.catalog {
      assert m in multiset(a.catalog) <==> m in multiset(b.catalog);
    }
    var x, y := SelectForRule(rule, a), SelectForRule(rule, b);
    if x.Some? && y.Some? {
      AtMostAntisymmetric(x.value.id, y.value.id);
    }
  }

  // ----- Names ----------------------------------------------------------

  function AfterSlashFrom(s: string, whole: string): string {
    if s == "" then whole
    else if s[0] == '/' then s[1..]
    else AfterSlashFrom(s[1..], whole)
  }

  /** The part after the first slash, or all of it without one. */
  function AfterSlash(s: string): string {
    AfterSlashFrom(s, s)
  }

  function BeforeSlash(s: string): string {
    if s == "" || s[0] == '/' then "" else [s[0]] + BeforeSlash(s[1..])
  }

  function DotsToDashes(s: string): string {
    seq(|s|, i requires 0 <= i < |s| => if s[i] == '.' then '-' else s[i])
  }

  function NativeName(m: CatalogModel, section: SectionRules): string {
    if m.id in section.idOverrides then section.idOverrides[m.id]
    else
      match section.idTransform
      case KeepFullId => m.id
      case StripPrefixDotsToDashes => DotsToDashes(AfterSlash(m.id))
      case StripPrefix => AfterSlash(m.id)
  }

  /** Where the first ": " of a name starts, if it has one. */
  function ColonAt(name: string, i: nat): Option<nat>
    decreases |name| - i
  {
    if i + 2 > |name| then None
    else if name[i] == ':' && name[i + 1] == ' ' then Some(i)
    else ColonAt(name, i + 1)
  }

  lemma {:induction false} ColonInside(name: string, i: nat)
    ensures ColonAt(name, i).Some? ==> ColonAt(name, i).value + 2 <= |name|
    decreases |name| - i
  {
    if i + 2 <= |name| && !(name[i] == ':' && name[i + 1] == ' ') {
      ColonInside(name, i + 1);
    }
  }

  function StripVendorPrefix(name: string, id: string, rules: CurationRules): string {
    ColonInside(name, 0);
    if '/' !in id then name
    else
      match ColonAt(name, 0)
      case None => name
      case Some(i) =>
        if rules.normalize(name[..i]) == rules.normalize(BeforeSlash(id)) then name[i + 2..] else name
  }

  function DisplayName(
    m: CatalogModel, nativeName: string, section: SectionRules, rules: CurationRules): Option<string> {
    if !section.emitDisplayName then None
    else if nativeName in section.displayNameOverrides then Some(section.displayNameOverrides[nativeName])
    else Some(StripVendorPrefix(m.name, m.id, rules))
  }

  // ----- The visible view of a section ----------------------------------

  /** Python truth of an optional string. */
  predicate Truthy(s: Option<string>) {
    s.Some? && s.value != ""
  }

  /** Where a name first occurs, if it does. */
  function IndexOf(models: seq<RecommendedModel>, name: string): (r: Option<nat>)
    ensures r.Some? ==> r.value < |models| && models[r.value].name == name
  {
    if models == [] then None
    else
      var n := |models| - 1;
      match IndexOf(models[..n], name)
      case Some(i) => Some(i)
      case None => if models[n].name == name then Some(n) else None
  }

  lemma {:induction false} IndexOfNone(models: seq<RecommendedModel>, name: string)
    ensures IndexOf(models, name).None? <==> forall i :: 0 <= i < |models| ==> models[i].name != name
  {
    if models == [] {
    } else {
      IndexOfNone(models[..|models| - 1], name);
    }
  }

  /** One pass of the loop over by_name: first position wins, first real display name wins. */
  function Merged(byName: seq<RecommendedModel>, m: RecommendedModel): seq<RecommendedModel> {
    match IndexOf(byName, m.name)
    case None => byName + [m]
    case Some(i) =>
      if Truthy(m.displayName) && !Truthy(byName[i].displayName) then byName[i := m] else byName
  }

  /** The list after the loop's first n passes. */
  function MergeUpto(models: seq<RecommendedModel>, n: nat): seq<RecommendedModel>
    requires n <= |models|
  {
    if n == 0 then [] else Merged(MergeUpto(models, n - 1), models[n - 1])
  }

  function AllModels(section: ProviderSection): seq<RecommendedModel> {
    [RecommendedModel(section.defaultModel, None)] + section.additional
  }

  function VisibleView(section: Option<ProviderSection>): seq<RecommendedModel> {
    match section
    case None => []
    case Some(s) => MergeUpto(AllModels(s), 1 + |s.additional|)
  }

  method VisibleModels(section: Option<ProviderSection>) returns (byName: seq<RecommendedModel>)
    ensures byName == VisibleView(section)
  {
    byName := [];
    if section.None? {
      return;
    }
    var models := AllModels(section.value);
    for i := 0 to |models|
      invariant byName == MergeUpto(models, i)
    {
      var model := models[i];
      assert MergeUpto(models, i + 1) == Merged(byName, model);
      var existing := IndexOf(byName, model.name);
      if existing.None? {
        byName := byName + [model];
      } else if Truthy(model.displayName) && !Truthy(byName[existing.value].displayName) {
        byName := byName[existing.value := model];
      }
    }
  }

  predicate SectionsEqual(a: ProviderSection, b: ProviderSection) {
    a.defaultModel == b.defaultModel && VisibleView(Some(a)) == VisibleView(Some(b))
  }

  /** The names of a list, each at its first occurrence. */
  function Names(models: seq<RecommendedModel>): seq<string> {
    if models == [] then []
    else
      var n := |models| - 1;
      var before := Names(models[..n]);
      if models[n].name in before then before else before + [models[n].name]
  }

  /**
   The display name a list gives to a name it mentions: the first real one, or that of
   the first mention when there is none.
   */
  function Kept(models: seq<RecommendedModel>, name: string): Option<Option<string>> {
    if models == [] then None
    else
      var n := |models| - 1;
      var before := Kept(models[..n], name);
      if models[n].name != name then before
      else if before.None? || (Truthy(models[n].displayName) && !Truthy(before.value)) then Some(models[n].displayName)
      else before
  }

  lemma {:induction false} NamesDistinct(models: seq<RecommendedModel>)
    ensures Distinct(Names(models))
    ensures forall name :: name in Names(models) <==> Kept(models, name).Some?
  {
    if models == [] {
    } else {
      NamesDistinct(models[..|models| - 1]);
    }
  }

  /** view lists the names of models in order, each with the display name kept for it. */
  ghost predicate IsViewOf(view: seq<RecommendedModel>, models: seq<RecommendedModel>) {
    && |view| == |Names(models)|
    && forall i :: 0 <= i < |view| ==>
                     view[i].name == Names(models)[i] && Kept(models, Names(models)[i]) == Some(view[i].displayName)
  }

  lemma FoundAt(view: seq<RecommendedModel>, models: seq<RecommendedModel>, name: string)
    requires IsViewOf(view, models)
    ensures IndexOf(view, name).None? <==> name !in Names(models)
  {
    IndexOfNone(view, name);
  }

  lemma MergedStep(view: seq<RecommendedModel>, models: seq<RecommendedModel>, last: RecommendedModel)
    requires IsViewOf(view, models)
    ensures IsViewOf(Merged(view, last), models + [last])
  {
    var all := models + [last];
    assert all[..|all| - 1] == models;
    FoundAt(view, models, last.name);
    NamesDistinct(models);
    forall i | 0 <= i < |view| && Names(models)[i] != last.name
      ensures Kept(all, Names(models)[i]) == Some(view[i].displayName)
    {
    }
  }

  /** The loop over by_name computes exactly the view its list describes. */
  lemma {:induction false} MergedIsView(models: seq<RecommendedModel>, n: nat)
    requires n <= |models|
    ensures IsViewOf(MergeUpto(models, n), models[..n])
  {
    hide Merged;
    if n == 0 {
    } else {
      MergedIsView(models, n - 1);
      MergedStep(MergeUpto(models, n - 1), models[..n - 1], models[n - 1]);
      assert models[..n - 1] + [models[n - 1]] == models[..n];
    }
  }

  /** A view is determined by the names and the display names kept for them. */
  lemma ViewUnique(u: seq<RecommendedModel>, v: seq<RecommendedModel>, models: seq<RecommendedModel>)
    requires IsViewOf(u, models) && IsViewOf(v, models)
    ensures u == v
  {
    forall i | 0 <= i < |u| ensures u[i] == v[i] {
      assert u[i].name == v[i].name && Some(u[i].displayName) == Some(v[i].displayName);
    }
  }
}
