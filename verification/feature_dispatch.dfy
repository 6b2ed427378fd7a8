/**
 * The hero strategy dispatcher of feature-forge's application config: the
 * maintenance kill-switch wins, then the A/B test's variant B, and otherwise
 * the standard hero.
 */
module AppConfig {
  import opened Wrappers
  import opened FeatureModel
  import opened Features
  import opened MockFeatureProvider

  datatype HeroStrategy = StandardHero | ExperimentalHero | MaintenanceHero

  /** `payload?.variant === 'B'`: an object payload whose `variant` field is the string "B". */
  predicate IsVariantB(p: Option<Payload>)
  {
    p.Some? && p.value.Record? && "variant" in p.value.fields && p.value.fields["variant"] == Text("B")
  }

  /**
   * The dispatcher factory, reading the flag store: the kill-switch wins
   * whatever the A/B test says; below it, variant B selects the experimental
   * hero whether or not the test's flag is enabled; the standard hero is the
   * fallback.
   */
  function SelectHeroStrategy(fs: FeatureService): (r: HeroStrategy)
    reads fs
    ensures fs.IsEnabled(MaintenanceMode) ==> r == MaintenanceHero
    ensures r == ExperimentalHero <==> !fs.IsEnabled(MaintenanceMode) && IsVariantB(fs.GetPayload(HeroAbTest))
    ensures r == StandardHero <==> !fs.IsEnabled(MaintenanceMode) && !IsVariantB(fs.GetPayload(HeroAbTest))
  {
    if fs.IsEnabled(MaintenanceMode) then MaintenanceHero
    else if IsVariantB(fs.GetPayload(HeroAbTest)) then ExperimentalHero
    else StandardHero
  }

  /**
   * The strategy chosen after loading a fetched list, in terms of the list:
   * maintenance when the last maintenance-mode flag is enabled; otherwise
   * experimental when the last hero-ab-test flag carries variant B, whether or
   * not that flag is enabled; otherwise standard.
   */
  lemma {:induction false} StrategyOfList(fs: FeatureService, list: seq<FeatureFlag>)
    requires fs.flags == ToMap(list)
    ensures var m := LastWith(list, MaintenanceMode);
            SelectHeroStrategy(fs) == MaintenanceHero <==> m >= 0 && list[m].enabled
    ensures var m, h := LastWith(list, MaintenanceMode), LastWith(list, HeroAbTest);
            SelectHeroStrategy(fs) == ExperimentalHero <==>
              !(m >= 0 && list[m].enabled) && h >= 0 && IsVariantB(list[h].payload)
  {
    EnabledAfterLoad(list, MaintenanceMode);
    PayloadAfterLoad(list, HeroAbTest);
  }

  /**
   * The A/B test's payload is read even when its flag is disabled: after any
   * load in which maintenance mode is not switched on and the last
   * hero-ab-test flag is disabled but carries variant B, the test reads as
   * disabled and the experimental hero is still selected.
   */
  lemma DisabledAbTestStillExperimental(fs: FeatureService, list: seq<FeatureFlag>)
    requires fs.flags == ToMap(list)
    requires var m := LastWith(list, MaintenanceMode); !(m >= 0 && list[m].enabled)
    requires var h := LastWith(list, HeroAbTest); h >= 0 && !list[h].enabled && IsVariantB(list[h].payload)
    ensures !fs.IsEnabled(HeroAbTest)
    ensures SelectHeroStrategy(fs) == ExperimentalHero
  {
    EnabledAfterLoad(list, HeroAbTest);
    StrategyOfList(fs, list);
  }

  /** One such load: the hero A/B test alone, disabled, with the variant-B payload. */
  lemma DisabledAbTestAlone(fs: FeatureService)
    requires fs.flags == ToMap([FeatureFlag(HeroAbTest, AbTest, false, Some(HeroPayload))])
    ensures !fs.IsEnabled(HeroAbTest)
    ensures SelectHeroStrategy(fs) == ExperimentalHero
  {
    var list := [FeatureFlag(HeroAbTest, AbTest, false, Some(HeroPayload))];
    assert HeroAbTest[0] != MaintenanceMode[0];
    DisabledAbTestStillExperimental(fs, list);
  }

  /**
   * The application start-up: the initializer loads the provider's outcome
   * (none when fetchFlags threw) and the factory then picks the hero.
   */
  method Startup(fetched: Option<seq<FeatureFlag>>) returns (fs: FeatureService, strategy: HeroStrategy)
    ensures fresh(fs) && fs.Valid()
    ensures fetched.Some? ==> fs.flags == ToMap(fetched.value)
    ensures strategy == SelectHeroStrategy(fs)
    ensures fetched.None? ==> strategy == StandardHero
    ensures fetched == Some(FetchFlags()) ==> strategy == ExperimentalHero
  {
    fs := new FeatureService();
    fs.Init(fetched);
    if fetched == Some(FetchFlags()) {
      MockSelectsExperimental(fs);
    }
    strategy := SelectHeroStrategy(fs);
  }

  /** With the mock provider the application shows the experimental hero. */
  lemma MockSelectsExperimental(fs: FeatureService)
    requires fs.flags == ToMap(FetchFlags())
    ensures SelectHeroStrategy(fs) == ExperimentalHero
  {
    MockFlagsLoaded(MaintenanceMode);
  }

  /** After a failed fetch the application falls back to the standard hero. */
  lemma FailedFetchSelectsStandard(fs: FeatureService)
    requires fs.flags == map[]
    ensures SelectHeroStrategy(fs) == StandardHero
  {
  }
}
