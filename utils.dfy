/** The field-shaping helpers the listing parser uses. */
module Utils {
  import opened Wrappers
  import Config

  const UnknownPrice: string := "Unknown price"
  const UnknownData: string := "Unknown"

  /** A JSON price object, reduced to its string-valued members. */
  type PriceObject = map<string, string>

  /**
   * The display price: `priceFormatted` when the price object is present and
   * has that member, the placeholder otherwise. An absent object and an empty
   * one both give the placeholder.
   */
  function FormatPrice(price: Option<PriceObject>): (r: string)
    ensures price.Some? && "priceFormatted" in price.value ==> r == price.value["priceFormatted"]
    ensures price.None? || "priceFormatted" !in price.value ==> r == UnknownPrice
  {
    if price.None? || price.value == map[] then UnknownPrice
    else if "priceFormatted" in price.value then price.value["priceFormatted"]
    else UnknownPrice
  }

  /** One entry of a listing's `vehicleDetails` array. */
  datatype Detail = Detail(iconName: Option<string>, data: Option<string>)

  /** The entry has a truthy `iconName`: present and not the empty string. */
  predicate HasIcon(d: Detail) {
    d.iconName.Some? && d.iconName.value != ""
  }

  /** The value an entry contributes: its `data`, or "Unknown" when it has none. */
  function DetailValue(d: Detail): string {
    d.data.GetOr(UnknownData)
  }

  /**
   * The feature map after folding the details in order, each entry with an
   * icon name assigning its value to that key (later entries overwrite).
   */
  function FeaturesOf(details: seq<Detail>): (m: map<string, string>)
    ensures |m| <= |details|
    ensures details == [] ==> m == map[]
    decreases |details|
  {
    if details == [] then map[]
    else
      var m := FeaturesOf(details[..|details| - 1]);
      var d := details[|details| - 1];
      if HasIcon(d) then m[d.iconName.value := DetailValue(d)] else m
  }

  /** The icon names of the entries that have one. */
  function IconNames(details: seq<Detail>): set<string> {
    set i | 0 <= i < |details| && HasIcon(details[i]) :: details[i].iconName.value
  }

  /** The keys of the feature map are exactly the non-empty icon names of the details. */
  lemma {:induction false} FeatureKeys(details: seq<Detail>)
    ensures FeaturesOf(details).Keys == IconNames(details)
    decreases |details|
  {
    if details != [] {
      var n := |details| - 1;
      var init := details[..n];
      FeatureKeys(init);
      forall k | k in IconNames(details)
        ensures k in FeaturesOf(details)
      {
        var i :| 0 <= i < |details| && HasIcon(details[i]) && details[i].iconName.value == k;
        if i < n {
          assert init[i] == details[i];
          assert k in IconNames(init);
        }
      }
      forall k | k in FeaturesOf(details)
        ensures k in IconNames(details)
      {
        if k in FeaturesOf(init) {
          var i :| 0 <= i < n && HasIcon(init[i]) && init[i].iconName.value == k;
          assert details[i] == init[i];
        } else {
          assert HasIcon(details[n]) && details[n].iconName.value == k;
        }
      }
    }
  }

  /**
   * When entry `i` is the last one carrying icon name `k`, the feature map
   * holds entry `i`'s value under `k`, or "Unknown" when entry `i` has no data.
   */
  lemma {:induction false} FeatureLastWins(details: seq<Detail>, i: int)
    requires 0 <= i < |details| && HasIcon(details[i])
    requires forall j :: i < j < |details| ==> details[j].iconName != details[i].iconName
    ensures details[i].iconName.value in FeaturesOf(details)
    ensures FeaturesOf(details)[details[i].iconName.value] == DetailValue(details[i])
    ensures details[i].data.None? ==> FeaturesOf(details)[details[i].iconName.value] == UnknownData
    decreases |details|
  {
    var n := |details| - 1;
    if i < n {
      var init := details[..n];
      assert init[i] == details[i];
      FeatureLastWins(init, i);
    }
  }

  /**
   * Python's `extract_vehicle_features`: a loop that fills the feature map one
   * entry at a time.
   */
  method ExtractVehicleFeatures(details: seq<Detail>) returns (features: map<string, string>)
    ensures features == FeaturesOf(details)
    ensures features.Keys == IconNames(details)
    ensures |features| <= |details|
  {
    features := map[];
    for i := 0 to |details|
      invariant features == FeaturesOf(details[..i])
    {
      var d := details[i];
      assert details[..i + 1][..i] == details[..i];
      if d.iconName.Some? && d.iconName.value != "" {
        features := features[d.iconName.value := d.data.GetOr(UnknownData)];
      }
    }
    assert details[..|details|] == details;
    FeatureKeys(details);
  }

  /** The absolute link of a listing: the site's base URL followed by the relative URL. */
  function BuildCarUrl(listingUrl: string): (r: string)
    ensures |r| == |Config.AutoscoutBaseUrl| + |listingUrl|
    ensures r[..|Config.AutoscoutBaseUrl|] == Config.AutoscoutBaseUrl
    ensures r[|Config.AutoscoutBaseUrl|..] == listingUrl
    ensures listingUrl == [] ==> r == Config.AutoscoutBaseUrl
  {
    Config.AutoscoutBaseUrl + listingUrl
  }
}
