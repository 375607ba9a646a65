/**
 Building the recommendations of backend/scripts/update_recommended_models.py: one
 section at a time, then the whole file with its version.
 */
module RecommendedBuild {
  import opened Wrappers
  import opened RecommendedModels

  // ----- build_section --------------------------------------------------

  datatype Built = Built(section: ProviderSection, warnings: seq<string>)

  function Unmatched(sectionName: string, rule: FamilyRule): string {
    sectionName + ": rule '" + rule.ruleLabel + "' matched no catalog models"
  }

  function KeptUnchanged(sectionName: string): string {
    sectionName + ": no default model could be selected; keeping the section unchanged"
  }

  function NoDefault(sectionName: string): string {
    sectionName + ": no default model could be selected and there is no existing section to fall back to"
  }

  /** What the rules pick, in rule order. */
  function Picks(rules: seq<FamilyRule>, inputs: Inputs): seq<CatalogModel> {
    if rules == [] then []
    else
      var n := |rules| - 1;
      match SelectForRule(rules[n], inputs)
      case None => Picks(rules[..n], inputs)
      case Some(pick) => Picks(rules[..n], inputs) + [pick]
  }

  function RuleWarnings(sectionName: string, rules: seq<FamilyRule>, inputs: Inputs): seq<string> {
    if rules == [] then []
    else
      var n := |rules| - 1;
      RuleWarnings(sectionName, rules[..n], inputs) +
      (if SelectForRule(rules[n], inputs).None? then [Unmatched(sectionName, rules[n])] else [])
  }

  /** The pinned default, or the first pick of a default-source rule. */
  function DefaultName(section: SectionRules, rules: seq<FamilyRule>, inputs: Inputs): Option<string> {
    if rules == [] then section.pinnedDefault
    else
      var n := |rules| - 1;
      var before := DefaultName(section, rules[..n], inputs);
      var pick := SelectForRule(rules[n], inputs);
      if before.None? && rules[n].isDefaultSource && pick.Some? then Some(NativeName(pick.value, section)) else before
  }

  /** The picks as models, each native name at its first occurrence. */
  function FreshModels(section: SectionRules, picks: seq<CatalogModel>, rules: CurationRules): seq<RecommendedModel> {
    if picks == [] then []
    else
      var n := |picks| - 1;
      var before := FreshModels(section, picks[..n], rules);
      var name := NativeName(picks[n], section);
      if IndexOf(before, name).Some? then before
      else before + [RecommendedModel(name, DisplayName(picks[n], name, section, rules))]
  }

  function OrElse(a: Option<string>, b: Option<string>): Option<string> {
    if Truthy(a) then a else b
  }

  function Lookup(m: map<string, string>, key: string): Option<string> {
    if key in m then Some(m[key]) else None
  }

  /** The display name the section before gives to a name it shows. */
  function PreviousDisplay(previous: Option<ProviderSection>, name: string): Option<string> {
    var view := VisibleView(previous);
    match IndexOf(view, name)
    case None => None
    case Some(i) => view[i].displayName
  }

  function InheritedDisplay(section: SectionRules, previous: Option<ProviderSection>, name: string): Option<string> {
    if section.emitDisplayName then OrElse(Lookup(section.displayNameOverrides, name), PreviousDisplay(previous, name))
    else None
  }

  /** The default moved to the front, or inserted there when no rule picked it. */
  function DefaultFirst(models: seq<RecommendedModel>, name: string, inherited: Option<string>): seq<RecommendedModel> {
    match IndexOf(models, name)
    case None => [RecommendedModel(name, inherited)] + models
    case Some(i) => [models[i]] + models[..i] + models[i + 1..]
  }

  function SectionFrom(
    sectionName: string, section: SectionRules, inputs: Inputs, previous: Option<ProviderSection>
  ): Result<Built, string> {
    var warnings := RuleWarnings(sectionName, section.rules, inputs);
    match DefaultName(section, section.rules, inputs)
    case None =>
      (match previous
       case None => Failure(NoDefault(sectionName))
       case Some(kept) => Success(Built(kept, warnings + [KeptUnchanged(sectionName)])))
    case Some(name) =>
      var models := FreshModels(section, Picks(section.rules, inputs), inputs.rules);
      Success(Built(
        ProviderSection(name, DefaultFirst(models, name, InheritedDisplay(section, previous, name))), warnings))
  }

  method SelectPicks(sectionName: string, section: SectionRules, inputs: Inputs)
    returns (picks: seq<CatalogModel>, defaultName: Option<string>, warnings: seq<string>)
    ensures picks == Picks(section.rules, inputs)
    ensures defaultName == DefaultName(section, section.rules, inputs)
    ensures warnings == RuleWarnings(sectionName, section.rules, inputs)
  {
    defaultName := section.pinnedDefault;
    picks, warnings := [], [];
    for i := 0 to |section.rules|
      invariant picks == Picks(section.rules[..i], inputs)
      invariant defaultName == DefaultName(section, section.rules[..i], inputs)
      invariant warnings == RuleWarnings(sectionName, section.rules[..i], inputs)
    {
      assert section.rules[..i + 1][..i] == section.rules[..i];
      var rule := section.rules[i];
      match SelectForRule(rule, inputs)
      case None =>
        warnings := warnings + [Unmatched(sectionName, rule)];
      case Some(pick) =>
        picks := picks + [pick];
        if rule.isDefaultSource && defaultName.None? {
          defaultName := Some(NativeName(pick, section));
        }
    }
    assert section.rules[..|section.rules|] == section.rules;
  }

  lemma SeenIffFound(models: seq<RecommendedModel>, name: string)
    ensures name in (set m | m in models :: m.name) <==> IndexOf(models, name).Some?
  {
    IndexOfNone(models, name);
    if IndexOf(models, name).Some? {
      assert models[IndexOf(models, name).value] in models;
    }
  }

  method CollectModels(section: SectionRules, picks: seq<CatalogModel>, rules: CurationRules)
    returns (models: seq<RecommendedModel>)
    ensures models == FreshModels(section, picks, rules)
  {
    models := [];
    var seen: set<string> := {};
    for i := 0 to |picks|
      invariant models == FreshModels(section, picks[..i], rules)
      invariant seen == set m | m in models :: m.name
    {
      assert picks[..i + 1][..i] == picks[..i];
      var name := NativeName(picks[i], section);
      SeenIffFound(models, name);
      if name !in seen {
        seen := seen + {name};
        models := models + [RecommendedModel(name, DisplayName(picks[i], name, section, rules))];
      }
    }
    assert picks[..|picks|] == picks;
  }

  method BuildSection(
    sectionName: string, section: SectionRules, inputs: Inputs, previous: Option<ProviderSection>, warnings: seq<string>
  ) returns (r: Result<Built, string>)
    ensures match SectionFrom(sectionName, section, inputs, previous)
            case Failure(e) => r == Failure(e)
            case Success(built) => r == Success(Built(built.section, warnings + built.warnings))
  {
    var picks, defaultName, unmatched := SelectPicks(sectionName, section, inputs);
    if defaultName.None? {
      if previous.None? {
        return Failure(NoDefault(sectionName));
      }
      return Success(Built(previous.value, warnings + (unmatched + [KeptUnchanged(sectionName)])));
    }
    var name := defaultName.value;
    var models := CollectModels(section, picks, inputs.rules);
    var defaultIndex := IndexOf(models, name);
    match defaultIndex {
      case None =>
        var display: Option<string> := None;
        if section.emitDisplayName {
          var view := VisibleModels(previous);
          var i := IndexOf(view, name);
          display := OrElse(Lookup(section.displayNameOverrides, name),
                            if i.None? then None else view[i.value].displayName);
        }
        models := [RecommendedModel(name, display)] + models;
      case Some(i) =>
        models := [models[i]] + models[..i] + models[i + 1..];
    }
    return Success(Built(ProviderSection(name, models), warnings + unmatched));
  }

  // ----- What a fresh section looks like --------------------------------

  ghost predicate DistinctModels(models: seq<RecommendedModel>) {
    forall i, j :: 0 <= i < j < |models| ==> models[i].name != models[j].name
  }

  lemma {:induction false} FreshModelsDistinct(section: SectionRules, picks: seq<CatalogModel>, rules: CurationRules)
    ensures DistinctModels(FreshModels(section, picks, rules))
  {
    hide NativeName, DisplayName, IndexOf;
    if picks == [] {
    } else {
      var n := |picks| - 1;
      FreshModelsDistinct(section, picks[..n], rules);
      IndexOfNone(FreshModels(section, picks[..n], rules), NativeName(picks[n], section));
    }
  }

  /** rest is models, in order, without the one of this name. */
  ghost predicate Without(rest: seq<RecommendedModel>, models: seq<RecommendedModel>, name: string) {
    match IndexOf(models, name)
    case None => rest == models
    case Some(i) => rest == models[..i] + models[i + 1..]
  }

  lemma DefaultFirstShape(models: seq<RecommendedModel>, name: string, inherited: Option<string>)
    requires DistinctModels(models)
    ensures var all := DefaultFirst(models, name, inherited);
            && all != [] && all[0].name == name
            && DistinctModels(all)
            && Without(all[1..], models, name)
  {
    var all := DefaultFirst(models, name, inherited);
    IndexOfNone(models, name);
    match IndexOf(models, name)
    case None =>
    case Some(i) =>
      assert all[1..] == models[..i] + models[i + 1..];
  }

  /**
   A freshly built section has distinct names, its default first, and after it the other
   picks in rule order.
   */
  lemma FreshSectionShape(sectionName: string, section: SectionRules, inputs: Inputs, previous: Option<ProviderSection>)
    requires DefaultName(section, section.rules, inputs).Some?
    ensures var built := SectionFrom(sectionName, section, inputs, previous);
            && built.Success?
            && var models := built.value.section.additional;
            && models != [] && models[0].name == built.value.section.defaultModel
            && DistinctModels(models)
            && Without(models[1..], FreshModels(section, Picks(section.rules, inputs), inputs.rules),
                       built.value.section.defaultModel)
  {
    var picks := Picks(section.rules, inputs);
    var name := DefaultName(section, section.rules, inputs).value;
    FreshModelsDistinct(section, picks, inputs.rules);
    DefaultFirstShape(FreshModels(section, picks, inputs.rules), name, InheritedDisplay(section, previous, name));
  }

  // ----- The visible view of a fresh section ----------------------------

  function RealOrNone(d: Option<string>): Option<string> {
    if Truthy(d) then d else None
  }

  /** The runtime sees a fresh section as listed, but never an empty name for its default. */
  function ShownFresh(name: string, models: seq<RecommendedModel>): seq<RecommendedModel>
    requires models != []
  {
    [RecommendedModel(name, RealOrNone(models[0].displayName))] + models[1..]
  }

  lemma {:induction false} IndexOfFirst(models: seq<RecommendedModel>)
    requires models != []
    ensures IndexOf(models, models[0].name) == Some(0)
  {
    if |models| > 1 {
      IndexOfFirst(models[..|models| - 1]);
    } else {
      assert models[..0] == [];
    }
  }

  lemma FreshViewOfOne(start: RecommendedModel, m: RecommendedModel)
    requires start.displayName.None? && m.name == start.name
    ensures Merged([], start) == [start]
    ensures Merged([start], m) == [RecommendedModel(m.name, RealOrNone(m.displayName))]
  {
    IndexOfFirst([start]);
  }

  lemma NewNameAppended(shown: seq<RecommendedModel>, models: seq<RecommendedModel>, n: nat)
    requires 0 < n < |models| && DistinctModels(models)
    requires shown == ShownFresh(models[0].name, models[..n])
    ensures Merged(shown, models[n]) == shown + [models[n]]
  {
    forall i | 0 <= i < |shown| ensures shown[i].name != models[n].name {
      assert shown[i].name == models[i].name;
    }
    IndexOfNone(shown, models[n].name);
  }

  lemma {:induction false} FreshViewUpto(name: string, models: seq<RecommendedModel>, n: nat)
    requires 1 <= n <= |models| && models[0].name == name && DistinctModels(models)
    ensures MergeUpto([RecommendedModel(name, None)] + models, n + 1) == ShownFresh(name, models[..n])
  {
    hide Merged;
    var start := RecommendedModel(name, None);
    var all := [start] + models;
    assert all[n] == models[n - 1];
    if n == 1 {
      FreshViewOfOne(start, models[0]);
      assert MergeUpto(all, 0) == [] && MergeUpto(all, 1) == [start];
      assert models[..1] == [models[0]];
    } else {
      FreshViewUpto(name, models, n - 1);
      NewNameAppended(ShownFresh(name, models[..n - 1]), models, n - 1);
      assert ShownFresh(name, models[..n - 1]) + [models[n - 1]] == ShownFresh(name, models[..n]);
    }
  }

  lemma FreshView(section: ProviderSection)
    requires section.additional != [] && section.additional[0].name == section.defaultModel
    requires DistinctModels(section.additional)
    ensures VisibleView(Some(section)) == ShownFresh(section.defaultModel, section.additional)
  {
    hide MergeUpto, Truthy;
    var models := section.additional;
    FreshViewUpto(section.defaultModel, models, |models|);
    assert models[..|models|] == models;
  }

  /** What a section shows for its default is inherited, with an empty name as none. */
  lemma PreviousDisplayOfFresh(section: ProviderSection)
    requires section.additional != [] && section.additional[0].name == section.defaultModel
    requires DistinctModels(section.additional)
    ensures PreviousDisplay(Some(section), section.defaultModel) == RealOrNone(section.additional[0].displayName)
  {
    FreshView(section);
    IndexOfFirst(ShownFresh(section.defaultModel, section.additional));
  }

  /** Two inherited display names look alike when they differ at most in being empty. */
  predicate SameToReaders(a: Option<ProviderSection>, b: Option<ProviderSection>, name: string) {
    RealOrNone(PreviousDisplay(a, name)) == RealOrNone(PreviousDisplay(b, name))
  }

  /** Builds that inherit alike display names look alike. */
  lemma FreshSectionsAlike(
    sectionName: string, section: SectionRules, inputs: Inputs, a: Option<ProviderSection>, b: Option<ProviderSection>)
    requires DefaultName(section, section.rules, inputs).Some?
    requires var name := DefaultName(section, section.rules, inputs).value;
             IndexOf(FreshModels(section, Picks(section.rules, inputs), inputs.rules), name).None? ==>
               SameToReaders(a, b, name)
    ensures var x, y := SectionFrom(sectionName, section, inputs, a), SectionFrom(sectionName, section, inputs, b);
            && x.Success? && y.Success? && x.value.warnings == y.value.warnings
            && SectionsEqual(x.value.section, y.value.section)
            && x.value.section.additional[1..] == y.value.section.additional[1..]
  {
    FreshSectionShape(sectionName, section, inputs, a);
    FreshSectionShape(sectionName, section, inputs, b);
    var x := SectionFrom(sectionName, section, inputs, a).value.section;
    var y := SectionFrom(sectionName, section, inputs, b).value.section;
    FreshView(x);
    FreshView(y);
  }
}
