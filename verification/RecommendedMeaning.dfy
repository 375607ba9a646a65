/**
 What the generator of recommended models produces, next to its rules and its catalog:
 names, picks, defaults, sections and the file, each described on its own.
 */
module RecommendedMeaning {
  import opened Wrappers
  import opened Sequences
  import opened JsonText
  import opened RecommendedModels
  import opened RecommendedBuild
  import opened RecommendedNames
  import opened RecommendedRerun

  // ----- Names ------------------------------------------------------------

  /** An id without a slash is its own last part; otherwise the first slash splits it. */
  lemma {:induction false} AfterFirstSlash(vendor: string, rest: string, whole: string)
    requires '/' !in vendor
    ensures AfterSlashFrom(vendor + "/" + rest, whole) == rest
    ensures AfterSlashFrom(vendor, whole) == whole
    ensures BeforeSlash(vendor + "/" + rest) == vendor && BeforeSlash(vendor) == vendor
  {
    var s := vendor + "/" + rest;
    if vendor == "" {
      assert s[1..] == rest;
    } else {
      assert vendor[0] in vendor && s[1..] == vendor[1..] + "/" + rest;
      AfterFirstSlash(vendor[1..], rest, whole);
      assert vendor == [vendor[0]] + vendor[1..];
    }
  }

  /** The native name: an override, or the id, or its part after the vendor, dots as dashes. */
  lemma NativeNameMeaning(m: CatalogModel, section: SectionRules, vendor: string, bare: string)
    requires '/' !in vendor && m.id == vendor + "/" + bare
    ensures m.id in section.idOverrides ==> NativeName(m, section) == section.idOverrides[m.id]
    ensures m.id !in section.idOverrides ==>
              match section.idTransform
              case KeepFullId => NativeName(m, section) == m.id
              case StripPrefix => NativeName(m, section) == bare
              case StripPrefixDotsToDashes =>
                && |NativeName(m, section)| == |bare|
                && forall i :: 0 <= i < |bare| ==>
                                 NativeName(m, section)[i] == if bare[i] == '.' then '-' else bare[i]
  {
    AfterFirstSlash(vendor, bare, m.id);
  }

  lemma {:induction false} ColonMeaning(name: string, i: nat)
    requires i <= |name|
    ensures match ColonAt(name, i)
            case None => forall k :: i <= k < |name| - 1 ==> !(name[k] == ':' && name[k + 1] == ' ')
            case Some(at) =>
              && i <= at < |name| - 1 && name[at] == ':' && name[at + 1] == ' '
              && forall k :: i <= k < at ==> !(name[k] == ':' && name[k + 1] == ' ')
    decreases |name| - i
  {
    if i + 2 > |name| || (name[i] == ':' && name[i + 1] == ' ') {
    } else {
      ColonMeaning(name, i + 1);
    }
  }

  /**
   The display name of a model of a vendor: an override of its native name; or its catalog
   name, without "Vendor: " in front when that is the vendor of the id.
   */
  lemma DisplayNameMeaning(
    m: CatalogModel, native: string, section: SectionRules, rules: CurationRules, vendor: string, bare: string,
    label_: string, rest: string)
    requires '/' !in vendor && m.id == vendor + "/" + bare
    requires m.name == label_ + ": " + rest
    requires forall k :: 0 <= k < |label_| ==> !(m.name[k] == ':' && m.name[k + 1] == ' ')
    ensures DisplayName(m, native, section, rules) ==
            if !section.emitDisplayName then None
            else if native in section.displayNameOverrides then Some(section.displayNameOverrides[native])
            else if rules.normalize(label_) == rules.normalize(vendor) then Some(rest)
            else Some(m.name)
  {
    AfterFirstSlash(vendor, bare, m.id);
    ColonMeaning(m.name, 0);
    var n := |label_|;
    assert m.name[n] == ':' && m.name[n + 1] == ' ';
    assert ColonAt(m.name, 0) == Some(n);
    assert m.name[..n] == label_ && m.name[n + 2..] == rest;
    assert m.id[|vendor|] == '/';
  }

  /** Without a slash in the id the native name is made of all of it, and no vendor is stripped. */
  lemma WithoutVendor(m: CatalogModel, section: SectionRules, rules: CurationRules)
    requires '/' !in m.id
    ensures m.id in section.idOverrides ==> NativeName(m, section) == section.idOverrides[m.id]
    ensures m.id !in section.idOverrides ==>
              && |NativeName(m, section)| == |m.id|
              && forall i :: 0 <= i < |m.id| ==>
                               NativeName(m, section)[i] ==
                               if section.idTransform.StripPrefixDotsToDashes? && m.id[i] == '.' then '-' else m.id[i]
    ensures forall native :: native !in section.displayNameOverrides && section.emitDisplayName ==>
                               DisplayName(m, native, section, rules) == Some(m.name)
  {
    AfterFirstSlash(m.id, "", m.id);
  }

  /** A catalog name without a colon and blank in it is displayed as it is. */
  lemma WithoutColon(m: CatalogModel, native: string, section: SectionRules, rules: CurationRules)
    requires forall k :: 0 <= k < |m.name| - 1 ==> !(m.name[k] == ':' && m.name[k + 1] == ' ')
    ensures DisplayName(m, native, section, rules) ==
            if !section.emitDisplayName then None
            else if native in section.displayNameOverrides then Some(section.displayNameOverrides[native])
            else Some(m.name)
  {
    ColonMeaning(m.name, 0);
  }

  // ----- Picks and default --------------------------------------------------

  /** One pick for each rule that matches, and one warning for each that does not, in rule order. */
  lemma {:induction false} PicksMeaning(sectionName: string, rules: seq<FamilyRule>, inputs: Inputs)
    ensures var matching := Filter(rules, (r: FamilyRule) => SelectForRule(r, inputs).Some?);
            && |Picks(rules, inputs)| == |matching|
            && forall i :: 0 <= i < |matching| ==> SelectForRule(matching[i], inputs) == Some(Picks(rules, inputs)[i])
    ensures var others := Filter(rules, (r: FamilyRule) => SelectForRule(r, inputs).None?);
            && |RuleWarnings(sectionName, rules, inputs)| == |others|
            && forall i :: 0 <= i < |others| ==>
                             RuleWarnings(sectionName, rules, inputs)[i] ==
                             sectionName + ": rule '" + others[i].ruleLabel + "' matched no catalog models"
  {
    hide SelectForRule;
    if rules == [] {
    } else {
      PicksMeaning(sectionName, rules[..|rules| - 1], inputs);
    }
  }

  /** So every pick is the newest eligible model of some rule of the section. */
  lemma PicksAreNewest(section: SectionRules, inputs: Inputs, i: nat)
    requires i < |Picks(section.rules, inputs)|
    ensures exists rule :: rule in section.rules && IsNewest(rule, inputs, Picks(section.rules, inputs)[i])
  {
    hide SelectForRule, IsNewest;
    PicksMeaning("", section.rules, inputs);
    var matches := (r: FamilyRule) => SelectForRule(r, inputs).Some?;
    var rule := Filter(section.rules, matches)[i];
    FilterKeeps(section.rules, matches, rule);
    assert rule in section.rules;
    SelectionMeaning(rule, inputs);
  }

  /** The i-th rule may name the default, and no rule before it could. */
  ghost predicate NamesDefault(rules: seq<FamilyRule>, inputs: Inputs, i: nat) {
    && i < |rules| && rules[i].isDefaultSource && SelectForRule(rules[i], inputs).Some?
    && forall j :: 0 <= j < i ==> !(rules[j].isDefaultSource && SelectForRule(rules[j], inputs).Some?)
  }

  /** The default: the pinned one, or the newest model of the first default rule that has one. */
  lemma {:induction false} DefaultMeaning(section: SectionRules, rules: seq<FamilyRule>, inputs: Inputs)
    ensures section.pinnedDefault.Some? ==> DefaultName(section, rules, inputs) == section.pinnedDefault
    ensures section.pinnedDefault.None? ==>
              match DefaultName(section, rules, inputs)
              case None => forall i :: 0 <= i < |rules| ==>
                                         !(rules[i].isDefaultSource && SelectForRule(rules[i], inputs).Some?)
              case Some(name) =>
                exists i: nat :: NamesDefault(rules, inputs, i) &&
                                 name == NativeName(SelectForRule(rules[i], inputs).value, section)
  {
    hide SelectForRule, NativeName;
    if rules == [] {
    } else {
      var n := |rules| - 1;
      DefaultMeaning(section, rules[..n], inputs);
      assert forall i :: 0 <= i < n ==> rules[..n][i] == rules[i];
      if section.pinnedDefault.None? {
        match DefaultName(section, rules[..n], inputs)
        case Some(name) =>
          var i: nat :| NamesDefault(rules[..n], inputs, i) &&
                        name == NativeName(SelectForRule(rules[..n][i], inputs).value, section);
          assert NamesDefault(rules, inputs, i);
        case None =>
          if rules[n].isDefaultSource && SelectForRule(rules[n], inputs).Some? {
            assert NamesDefault(rules, inputs, n);
          }
      }
    }
  }

  // ----- A section ----------------------------------------------------------

  lemma FromSomePick(m: RecommendedModel, picks: seq<CatalogModel>, section: SectionRules, rules: CurationRules)
    requires FromPick(m, picks, section, rules)
    ensures exists k :: 0 <= k < |picks| && m == ModelOf(picks[k], section, rules)
  {
  }

  lemma LastIsModelOf(section: SectionRules, picks: seq<CatalogModel>, rules: CurationRules)
    requires picks != []
    requires |FreshModels(section, picks, rules)| > |FreshModels(section, picks[..|picks| - 1], rules)|
    ensures var models := FreshModels(section, picks, rules);
            models[|models| - 1] == ModelOf(picks[|picks| - 1], section, rules)
  {
  }

  /** The fresh models are in the order of the picks they come from. */
  lemma {:induction false} FreshInOrder(
    section: SectionRules, picks: seq<CatalogModel>, rules: CurationRules, i: nat, j: nat)
    requires i < j < |FreshModels(section, picks, rules)|
    ensures exists k, l :: 0 <= k < l < |picks| &&
                           FreshModels(section, picks, rules)[i] == ModelOf(picks[k], section, rules) &&
                           FreshModels(section, picks, rules)[j] == ModelOf(picks[l], section, rules)
  {
    hide ModelOf, NativeName, DisplayName, IndexOf, FromPick, IsListed;
    var n := |picks| - 1;
    var before := FreshModels(section, picks[..n], rules);
    if j < |before| {
      FreshInOrder(section, picks[..n], rules, i, j);
      var k, l :| 0 <= k < l < n && before[i] == ModelOf(picks[..n][k], section, rules) &&
                  before[j] == ModelOf(picks[..n][l], section, rules);
      assert picks[..n][k] == picks[k] && picks[..n][l] == picks[l];
    } else {
      FreshModelsAre(section, picks[..n], rules, before[i]);
      assert before[i] in before;
      FromSomePick(before[i], picks[..n], section, rules);
      var k :| 0 <= k < n && before[i] == ModelOf(picks[..n][k], section, rules);
      assert picks[..n][k] == picks[k];
      LastIsModelOf(section, picks, rules);
    }
  }

  /** The display name a kept-out default inherits: a non-empty override, or the one shown before. */
  lemma InheritedMeaning(section: SectionRules, previous: Option<ProviderSection>, name: string)
    ensures !section.emitDisplayName ==> InheritedDisplay(section, previous, name) == None
    ensures section.emitDisplayName && name in section.displayNameOverrides &&
            section.displayNameOverrides[name] != "" ==>
              InheritedDisplay(section, previous, name) == Some(section.displayNameOverrides[name])
    ensures section.emitDisplayName &&
            (name in section.displayNameOverrides ==> section.displayNameOverrides[name] == "") ==>
              InheritedDisplay(section, previous, name) == PreviousDisplay(previous, name)
  {
  }

  lemma ViewNamesDistinct(view: seq<RecommendedModel>, models: seq<RecommendedModel>)
    requires IsViewOf(view, models)
    ensures forall i, j :: 0 <= i < j < |view| ==> view[i].name != view[j].name
  {
    NamesDistinct(models);
    forall i, j | 0 <= i < j < |view| ensures view[i].name != view[j].name {
      assert Names(models)[i] != Names(models)[j];
    }
  }

  /** What was shown before is the display name of the model of that name in the view. */
  lemma PreviousMeaning(section: ProviderSection, name: string, i: nat)
    requires i < |VisibleView(Some(section))| && VisibleView(Some(section))[i].name == name
    ensures PreviousDisplay(Some(section), name) == VisibleView(Some(section))[i].displayName
  {
    hide MergeUpto;
    var view, models := VisibleView(Some(section)), AllModels(section);
    MergedIsView(models, |models|);
    assert models[..|models|] == models;
    ViewNamesDistinct(view, models);
    IndexOfNone(view, name);
  }

  /** Some pick becomes this model. */
  ghost predicate IsPickedAs(m: RecommendedModel, section: SectionRules, inputs: Inputs) {
    exists k :: 0 <= k < |Picks(section.rules, inputs)| &&
                m == ModelOf(Picks(section.rules, inputs)[k], section, inputs.rules)
  }

  /** The default as it is listed: as it was picked, or inherited when no pick has its name. */
  ghost predicate IsFirstModel(
    m: RecommendedModel, section: SectionRules, inputs: Inputs, previous: Option<ProviderSection>, default_: string)
  {
    && m.name == default_
    && (if IsPicked(default_, Picks(section.rules, inputs), section) then IsPickedAs(m, section, inputs)
        else m.displayName == InheritedDisplay(section, previous, default_))
  }

  /**
   A section: built around its default, which comes first, listed as picked or, when no pick
   has its name, with an inherited display name; or kept with a warning; or an error.
   */
  lemma SectionMeaning(name: string, section: SectionRules, inputs: Inputs, previous: Option<ProviderSection>)
    ensures var built, picks := SectionFrom(name, section, inputs, previous), Picks(section.rules, inputs);
            var warnings := RuleWarnings(name, section.rules, inputs);
            match DefaultName(section, section.rules, inputs)
            case None =>
              (match previous
               case None => built.Failure?
               case Some(kept) =>
                 && built.Success? && built.value.section == kept
                 && built.value.warnings ==
                    warnings + [name + ": no default model could be selected; keeping the section unchanged"])
            case Some(default_) =>
              && built.Success? && built.value.warnings == warnings
              && built.value.section.defaultModel == default_
              && built.value.section.additional != []
              && IsFirstModel(built.value.section.additional[0], section, inputs, previous, default_)
  {
    hide Picks, FreshModels, DefaultName, InheritedDisplay, IsListed, RuleWarnings, FromPick, IsPicked, ModelOf;
    var picks := Picks(section.rules, inputs);
    if DefaultName(section, section.rules, inputs).Some? {
      var default_ := DefaultName(section, section.rules, inputs).value;
      var models := FreshModels(section, picks, inputs.rules);
      NamesPicked(section, picks, inputs.rules, default_);
      if IndexOf(models, default_).Some? {
        var m := models[IndexOf(models, default_).value];
        FreshModelsAre(section, picks, inputs.rules, m);
        FromSomePick(m, picks, section, inputs.rules);
        assert IsPickedAs(m, section, inputs);
      }
    }
  }

  // ----- The file -----------------------------------------------------------

  ghost predicate DistinctProviders(providers: seq<Provider>) {
    forall i, j :: 0 <= i < j < |providers| ==> providers[i].name != providers[j].name
  }

  /** A section of both files whose default or view differs. */
  ghost predicate Differs(a: Provider, b: Provider) {
    && a.name == b.name
    && (a.section.defaultModel != b.section.defaultModel ||
        VisibleView(Some(a.section)) != VisibleView(Some(b.section)))
  }

  lemma {:induction false} FindMeaning(providers: seq<Provider>, i: nat)
    requires DistinctProviders(providers) && i < |providers|
    ensures Find(providers, providers[i].name) == Some(providers[i].section)
  {
    if i == |providers| - 1 {
    } else {
      FindMeaning(providers[..|providers| - 1], i);
    }
  }

  lemma {:induction false} FindIsThere(providers: seq<Provider>, name: string)
    requires Find(providers, name).Some?
    ensures exists q :: q in providers && q.name == name && Find(providers, name) == Some(q.section)
  {
    var n := |providers| - 1;
    if providers[n].name == name {
      assert providers[n] in providers;
    } else {
      FindIsThere(providers[..n], name);
    }
  }

  /** What counts as a change: other section names, or a section that readers see differently. */
  lemma ChangedMeaning(providers: seq<Provider>, previous: seq<Provider>)
    requires DistinctProviders(previous)
    ensures ModelsChanged(providers, previous) <==>
            || (exists p :: p in providers && forall q :: q in previous ==> q.name != p.name)
            || (exists q :: q in previous && forall p :: p in providers ==> p.name != q.name)
            || (exists p, q :: p in providers && q in previous && Differs(p, q))
  {
    hide VisibleView;
    var a, b := ProviderNames(providers), ProviderNames(previous);
    if i :| 0 <= i < |providers| && SectionChanged(providers[i], previous) {
      FindIsThere(previous, providers[i].name);
      var q :| q in previous && q.name == providers[i].name && Find(previous, q.name) == Some(q.section);
      assert providers[i] in providers && Differs(providers[i], q);
    }
    if p, q :| p in providers && q in previous && Differs(p, q) {
      var i :| 0 <= i < |providers| && providers[i] == p;
      var j :| 0 <= j < |previous| && previous[j] == q;
      FindMeaning(previous, j);
      assert SectionChanged(providers[i], previous);
    }
    if a != b {
      var n :| (n in a) != (n in b);
      if n in a {
        var p :| p in providers && p.name == n;
        assert forall q :: q in previous ==> q.name != p.name;
      } else {
        var q :| q in previous && q.name == n;
        assert forall p :: p in providers ==> p.name != q.name;
      }
    }
    if p :| p in providers && forall q :: q in previous ==> q.name != p.name {
      assert p.name in a && p.name !in b;
    }
    if q :| q in previous && forall p :: p in providers ==> p.name != q.name {
      assert q.name in b && q.name !in a;
    }
  }

  /** The outcome: the previous file as it was, or one with the new sections, version and stamp. */
  lemma OutcomeMeaning(inputs: Inputs, previous: ModelsFile, stamp: string)
    ensures var built := BuildAll(inputs.rules.sections, inputs, previous.providers);
            match Recommendations(inputs, previous, stamp)
            case Failure(_) =>
              built.Failure? || (ModelsChanged(built.value.providers, previous.providers) &&
                                 BumpVersion(previous.version).Failure?)
            case Success(outcome) =>
              && built.Success? && outcome.warnings == built.value.warnings
              && (if ModelsChanged(built.value.providers, previous.providers) then
                    && BumpVersion(previous.version) == Success(outcome.file.version)
                    && outcome.file.updatedAt == stamp
                    && outcome.file.providers == built.value.providers
                  else outcome.file == previous)
  {
  }

  /** The members of the file by name: a display name is written when there is one to read. */
  lemma FileExample()
    ensures FileJson(ModelsFile("1.2", "today", [
                       Provider("openai", ProviderSection("a", [RecommendedModel("a", Some("A")),
                                                                RecommendedModel("b", Some("")),
                                                                RecommendedModel("c", None)]))])) ==
            Obj([Field("version", Str("1.2")), Field("updated_at", Str("today")),
                 Field("providers", Obj([
                         Field("openai", Obj([
                                 Field("default_model", Str("a")),
                                 Field("additional_visible_models", Arr([
                                         Obj([Field("name", Str("a")), Field("display_name", Str("A"))]),
                                         Obj([Field("name", Str("b"))]),
                                         Obj([Field("name", Str("c"))])]))]))]))])
  {
    var models := [RecommendedModel("a", Some("A")), RecommendedModel("b", Some("")), RecommendedModel("c", None)];
    assert ModelJson(models[0]).fields == [Field("name", Str("a")), Field("display_name", Str("A"))];
    assert ModelJson(models[1]).fields == [Field("name", Str("b"))];
    assert ModelJson(models[2]).fields == [Field("name", Str("c"))];
    assert ModelsJson(models) == [Obj([Field("name", Str("a")), Field("display_name", Str("A"))]),
                                  Obj([Field("name", Str("b"))]), Obj([Field("name", Str("c"))])];
    var section := SectionJson(ProviderSection("a", models));
    assert ProvidersJson([Provider("openai", ProviderSection("a", models))]).fields == [Field("openai", section)];
  }
}
