/** The mock flag provider of feature-forge: a fixed list of four flags. */
module MockFeatureProvider {
  import opened Wrappers
  import opened FeatureModel
  import opened Features

  const MaintenanceMode := "maintenance-mode"
  const HeroAbTest := "hero-ab-test"
  const NewSearchLayout := "new-search-layout"
  const PremiumDashboard := "premium-dashboard"

  /** The payload of the hero A/B test: variant B with its accent colour. */
  const HeroPayload: Payload := Record(map["variant" := Text("B"), "color" := Text("#6366f1")])

  /** fetchFlags: the four flags, in this order, with distinct ids. */
  function FetchFlags(): (r: seq<FeatureFlag>)
    ensures |r| == 4
    ensures forall i, j :: 0 <= i < j < |r| ==> r[i].id != r[j].id
    ensures Ids(r) == {MaintenanceMode, HeroAbTest, NewSearchLayout, PremiumDashboard}
  {
    var r := [
      FeatureFlag(MaintenanceMode, Ops, false, None),
      FeatureFlag(HeroAbTest, AbTest, true, Some(HeroPayload)),
      FeatureFlag(NewSearchLayout, Release, true, None),
      FeatureFlag(PremiumDashboard, Permission, false, None)
    ];
    assert MaintenanceMode[0] != HeroAbTest[0] && MaintenanceMode[0] != NewSearchLayout[0];
    assert MaintenanceMode[1] != PremiumDashboard[1] && HeroAbTest[0] != NewSearchLayout[0];
    assert HeroAbTest[0] != PremiumDashboard[0] && NewSearchLayout[0] != PremiumDashboard[0];
    r
  }

  /**
   * Loaded into the flag store, the mock list leaves maintenance mode off,
   * the hero A/B test on with variant B, the search layout on and the premium
   * dashboard off; any other id is off and has no payload.
   */
  lemma MockFlagsLoaded(id: string)
    ensures !IsEnabledIn(ToMap(FetchFlags()), MaintenanceMode)
    ensures IsEnabledIn(ToMap(FetchFlags()), HeroAbTest)
    ensures PayloadIn(ToMap(FetchFlags()), HeroAbTest) == Some(HeroPayload)
    ensures IsEnabledIn(ToMap(FetchFlags()), NewSearchLayout)
    ensures !IsEnabledIn(ToMap(FetchFlags()), PremiumDashboard)
    ensures id !in Ids(FetchFlags()) ==> !IsEnabledIn(ToMap(FetchFlags()), id) && PayloadIn(ToMap(FetchFlags()), id) == None
  {
    var r := FetchFlags();
    ToMapIsLastWith(r, MaintenanceMode);
    ToMapIsLastWith(r, HeroAbTest);
    ToMapIsLastWith(r, NewSearchLayout);
    ToMapIsLastWith(r, PremiumDashboard);
    assert r[0].id == MaintenanceMode && r[1].id == HeroAbTest && r[2].id == NewSearchLayout && r[3].id == PremiumDashboard;
  }
}
