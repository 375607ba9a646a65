/**
 Which picks the generator of recommended models lists with an empty display name: a
 question about the rules and the catalog only.
 */
module RecommendedNames {
  import opened Wrappers
  import opened RecommendedModels
  import opened RecommendedBuild

  /** The section is built around a default of its own, not kept from before. */
  predicate IsFresh(s: NamedRules, inputs: Inputs) {
    DefaultName(s.section, s.section.rules, inputs).Some?
  }

  /**
   A pick is listed with an empty display name: names are emitted, and its override, or its
   catalog name without the vendor when it has no override, is the empty string.
   */
  predicate GivesEmptyName(pick: CatalogModel, section: SectionRules, rules: CurationRules) {
    var name := NativeName(pick, section);
    && section.emitDisplayName
    && (if name in section.displayNameOverrides then section.displayNameOverrides[name]
        else StripVendorPrefix(pick.name, pick.id, rules)) == ""
  }

  /** The i-th pick is the first of its native name, so it is the one that is listed. */
  ghost predicate IsListed(picks: seq<CatalogModel>, i: nat, section: SectionRules) {
    i < |picks| && forall j :: 0 <= j < i ==> NativeName(picks[j], section) != NativeName(picks[i], section)
  }

  /** No listed pick of the section but its default has an empty display name. */
  ghost predicate NoEmptyPick(section: SectionRules, inputs: Inputs) {
    var picks := Picks(section.rules, inputs);
    forall i: nat :: IsListed(picks, i, section) && GivesEmptyName(picks[i], section, inputs.rules) ==>
                       DefaultName(section, section.rules, inputs) == Some(NativeName(picks[i], section))
  }

  /** The same for every section that is built and not kept. */
  ghost predicate NoEmptyNames(inputs: Inputs) {
    var sections := inputs.rules.sections;
    forall i :: 0 <= i < |sections| && IsFresh(sections[i], inputs) ==> NoEmptyPick(sections[i].section, inputs)
  }

  function ModelOf(pick: CatalogModel, section: SectionRules, rules: CurationRules): RecommendedModel {
    var name := NativeName(pick, section);
    RecommendedModel(name, DisplayName(pick, name, section, rules))
  }

  /** The model is that of a listed pick. */
  ghost predicate FromPick(m: RecommendedModel, picks: seq<CatalogModel>, section: SectionRules, rules: CurationRules) {
    exists i: nat :: IsListed(picks, i, section) && m == ModelOf(picks[i], section, rules)
  }

  ghost predicate IsPicked(name: string, picks: seq<CatalogModel>, section: SectionRules) {
    exists i :: 0 <= i < |picks| && NativeName(picks[i], section) == name
  }

  lemma LookupInMore(models: seq<RecommendedModel>, last: RecommendedModel, name: string)
    ensures IndexOf(models + [last], name).Some? <==> IndexOf(models, name).Some? || last.name == name
  {
    assert (models + [last])[..|models|] == models;
  }

  /** The fresh models have the names of the picks. */
  lemma {:induction false} NamesPicked(
    section: SectionRules, picks: seq<CatalogModel>, rules: CurationRules, name: string)
    ensures IndexOf(FreshModels(section, picks, rules), name).Some? <==> IsPicked(name, picks, section)
  {
    hide NativeName, DisplayName;
    if picks == [] {
    } else {
      var n := |picks| - 1;
      NamesPicked(section, picks[..n], rules, name);
      assert IsPicked(name, picks, section) <==>
             IsPicked(name, picks[..n], section) || NativeName(picks[n], section) == name by {
        if i :| 0 <= i < |picks| && NativeName(picks[i], section) == name {
          assert i < n ==> NativeName(picks[..n][i], section) == name;
        }
        if i :| 0 <= i < |picks[..n]| && NativeName(picks[..n][i], section) == name {
          assert NativeName(picks[i], section) == name;
        }
      }
      LookupInMore(FreshModels(section, picks[..n], rules), ModelOf(picks[n], section, rules), name);
    }
  }

  lemma FromPickOfMore(m: RecommendedModel, picks: seq<CatalogModel>, section: SectionRules, rules: CurationRules)
    requires picks != []
    ensures var n := |picks| - 1;
            FromPick(m, picks, section, rules) <==>
            || FromPick(m, picks[..n], section, rules)
            || (IsListed(picks, n, section) && m == ModelOf(picks[n], section, rules))
  {
    hide NativeName, ModelOf;
    var n := |picks| - 1;
    if i: nat :| IsListed(picks[..n], i, section) && m == ModelOf(picks[..n][i], section, rules) {
      assert IsListed(picks, i, section) && picks[..n][i] == picks[i];
    }
    if i: nat :| IsListed(picks, i, section) && m == ModelOf(picks[i], section, rules) {
      assert i < n ==> IsListed(picks[..n], i, section) && picks[..n][i] == picks[i];
    }
  }

  lemma LastIsListed(picks: seq<CatalogModel>, section: SectionRules)
    requires picks != []
    ensures var n := |picks| - 1;
            IsListed(picks, n, section) <==> !IsPicked(NativeName(picks[n], section), picks[..n], section)
  {
    hide NativeName;
    var n := |picks| - 1;
    forall j | 0 <= j < n ensures picks[..n][j] == picks[j] {
    }
  }

  lemma NothingPicked(section: SectionRules, rules: CurationRules, m: RecommendedModel)
    ensures !FromPick(m, [], section, rules)
  {
  }

  /** The fresh models are those of the listed picks. */
  lemma {:induction false} FreshModelsAre(
    section: SectionRules, picks: seq<CatalogModel>, rules: CurationRules, m: RecommendedModel)
    ensures m in FreshModels(section, picks, rules) <==> FromPick(m, picks, section, rules)
  {
    hide NativeName, DisplayName, IndexOf, FromPick, IsListed, IsPicked;
    if picks == [] {
      NothingPicked(section, rules, m);
    } else {
      var n := |picks| - 1;
      FreshModelsAre(section, picks[..n], rules, m);
      FromPickOfMore(m, picks, section, rules);
      LastIsListed(picks, section);
      NamesPicked(section, picks[..n], rules, NativeName(picks[n], section));
    }
  }

  ghost predicate ShowsNoEmptyName(section: ProviderSection) {
    forall j :: 1 <= j < |section.additional| ==> section.additional[j].displayName != Some("")
  }

  lemma RestAre(rest: seq<RecommendedModel>, models: seq<RecommendedModel>, name: string)
    requires DistinctModels(models) && Without(rest, models, name)
    ensures forall m :: m in rest <==> m in models && m.name != name
  {
    IndexOfNone(models, name);
    match IndexOf(models, name)
    case None =>
    case Some(k) =>
      assert models == models[..k] + [models[k]] + models[k + 1..];
      forall m ensures m in rest <==> m in models && m.name != name {
        if m in rest {
          var j :| 0 <= j < |rest| && rest[j] == m;
          assert m == if j < k then models[j] else models[j + 1];
        }
      }
  }

  /** What a fresh section lists after its default are the listed picks of other names. */
  lemma FreshRestAre(s: NamedRules, inputs: Inputs, previous: Option<ProviderSection>)
    requires IsFresh(s, inputs)
    ensures var built := SectionFrom(s.name, s.section, inputs, previous);
            && built.Success? && built.value.section.additional != []
            && forall m :: m in built.value.section.additional[1..] <==>
                             m in FreshModels(s.section, Picks(s.section.rules, inputs), inputs.rules) &&
                             m.name != DefaultName(s.section, s.section.rules, inputs).value
  {
    hide Picks, FreshModels, DefaultName, InheritedDisplay;
    FreshSectionShape(s.name, s.section, inputs, previous);
    var models := FreshModels(s.section, Picks(s.section.rules, inputs), inputs.rules);
    FreshModelsDistinct(s.section, Picks(s.section.rules, inputs), inputs.rules);
    RestAre(SectionFrom(s.name, s.section, inputs, previous).value.section.additional[1..], models,
            DefaultName(s.section, s.section.rules, inputs).value);
  }

  /**
   A fresh section shows an empty display name beside its default exactly when a listed
   pick of another name gives one, whatever the section before was.
   */
  lemma ShownIffGiven(s: NamedRules, inputs: Inputs, previous: Option<ProviderSection>)
    requires IsFresh(s, inputs)
    ensures SectionFrom(s.name, s.section, inputs, previous).Success?
    ensures ShowsNoEmptyName(SectionFrom(s.name, s.section, inputs, previous).value.section) <==>
            NoEmptyPick(s.section, inputs)
  {
    hide Picks, FreshModels, DefaultName, SectionFrom, NativeName, StripVendorPrefix;
    FreshRestAre(s, inputs, previous);
    var section := SectionFrom(s.name, s.section, inputs, previous).value.section;
    var picks := Picks(s.section.rules, inputs);
    var name := DefaultName(s.section, s.section.rules, inputs).value;
    if !ShowsNoEmptyName(section) {
      var j :| 1 <= j < |section.additional| && section.additional[j].displayName == Some("");
      var m := section.additional[j];
      assert m == section.additional[1..][j - 1];
      FreshModelsAre(s.section, picks, inputs.rules, m);
      var i: nat :| IsListed(picks, i, s.section) && m == ModelOf(picks[i], s.section, inputs.rules);
      assert GivesEmptyName(picks[i], s.section, inputs.rules);
    }
    if !NoEmptyPick(s.section, inputs) {
      var i: nat :| IsListed(picks, i, s.section) && GivesEmptyName(picks[i], s.section, inputs.rules) &&
                    NativeName(picks[i], s.section) != name;
      var m := ModelOf(picks[i], s.section, inputs.rules);
      FreshModelsAre(s.section, picks, inputs.rules, m);
      assert m in section.additional[1..];
      var j :| 0 <= j < |section.additional[1..]| && section.additional[1..][j] == m;
      assert section.additional[j + 1] == m;
    }
  }
}
