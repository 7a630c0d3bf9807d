/**
 * The static reference tables of the crop advisor: the governorates with
 * their coarse climate region, the crop definitions, and the placeholder
 * mean monthly temperatures per region, plus the keyed lookups into them.
 */
module ReferenceData {
  import opened Wrappers

  /** A governorate and the climate region it is classified under. */
  datatype Governorate = Governorate(name: string, region: string)

  /** A crop definition: ideal temperature range (degrees Celsius, inclusive),
      preferred soils, water need and the planting months (1 = January). */
  datatype Crop = Crop(
    id: string,
    name: string,
    tempMin: int,
    tempMax: int,
    soils: seq<string>,
    water: string,
    months: seq<int>)

  const Governorates: seq<Governorate> := [
    Governorate("Cairo", "Delta"),
    Governorate("Giza", "Delta"),
    Governorate("Fayoum", "Delta"),
    Governorate("Dakahlia", "Delta"),
    Governorate("Kafr El-Sheikh", "Delta"),
    Governorate("Minya", "Upper"),
    Governorate("Beni Suef", "Upper"),
    Governorate("Aswan", "Upper"),
    Governorate("North Sinai", "Sinai")
  ]

  const Wheat := Crop("wheat", "Wheat (Triticum aestivum)", 17, 24, ["clay", "loam"], "moderate", [11, 12, 1, 2, 3, 4])
  const Rice := Crop("rice", "Rice (Oryza sativa)", 20, 30, ["clay"], "high", [4, 5, 6, 7, 8, 9])
  const Maize := Crop("maize", "Maize (Zea mays)", 25, 35, ["loam", "sandy loam"], "moderate-high", [5, 6, 7, 8, 9, 10])
  const Barley := Crop("barley", "Barley (Hordeum vulgare)", 15, 22, ["varied"], "low", [11, 12, 1, 2, 3])

  /** The crop list, in definition order. */
  const Crops: seq<Crop> := [Wheat, Rice, Maize, Barley]

  /** Placeholder mean temperatures per region, January first. */
  const SampleMonthlyTemps: map<string, seq<int>> := map[
    "Delta" := [17, 18, 21, 24, 27, 30, 32, 31, 29, 26, 22, 18],
    "Upper" := [19, 20, 24, 28, 31, 34, 36, 35, 33, 29, 25, 20],
    "Sinai" := [16, 17, 20, 24, 28, 31, 33, 32, 30, 26, 21, 17]
  ]

  /** Every region of a temperature table has exactly one entry per month. */
  predicate WellFormedTable(temps: map<string, seq<int>>) {
    forall region :: region in temps ==> |temps[region]| == 12
  }

  /** Every crop's ideal range is a proper interval. */
  predicate WellFormedCrops(crops: seq<Crop>) {
    forall i :: 0 <= i < |crops| ==> crops[i].tempMin <= crops[i].tempMax
  }

  /** The position of month `m` (1 = January) in a twelve-entry table. */
  function MonthIndex(m: int): (k: int)
    requires 1 <= m <= 12
    ensures 0 <= k < 12
    ensures k + 1 == m
  {
    m - 1
  }

  /** The mean temperature of `region` in `month`, or None when the table has no such region. */
  function GetRegionTemp(temps: map<string, seq<int>>, region: string, month: int): (t: Option<int>)
    requires 1 <= month <= 12
    requires WellFormedTable(temps)
    ensures t == None <==> region !in temps
    ensures region in temps ==> t == Some(temps[region][month - 1])
  {
    if region !in temps then None else Some(temps[region][MonthIndex(month)])
  }

  /** The region of the first governorate called `name`, or None when no governorate has that name. */
  function RegionOf(govs: seq<Governorate>, name: string): (r: Option<string>)
    ensures r.None? <==> forall i :: 0 <= i < |govs| ==> govs[i].name != name
    ensures r.Some? ==> exists i :: 0 <= i < |govs| && govs[i].name == name && govs[i].region == r.value
                                   && forall j :: 0 <= j < i ==> govs[j].name != name
  {
    if |govs| == 0 then None
    else if govs[0].name == name then Some(govs[0].region)
    else
      var r := RegionOf(govs[1..], name);
      assert forall i :: 1 <= i < |govs| ==> govs[i] == govs[1..][i - 1];
      r
  }

  lemma SampleTablesWellFormed()
    ensures WellFormedTable(SampleMonthlyTemps)
    ensures WellFormedCrops(Crops)
  {
  }

  /** Every governorate of the sample list is classified under a region of the sample temperature table. */
  lemma SampleGovernoratesCovered()
    ensures forall i :: 0 <= i < |Governorates| ==> Governorates[i].region in SampleMonthlyTemps
  {
  }

  /** When every governorate's region has a temperature entry, a governorate found by name
      always yields a known temperature. */
  lemma GovernorateRegionHasTemperature(govs: seq<Governorate>, temps: map<string, seq<int>>, name: string, month: int)
    requires 1 <= month <= 12
    requires WellFormedTable(temps)
    requires forall i :: 0 <= i < |govs| ==> govs[i].region in temps
    requires RegionOf(govs, name).Some?
    ensures GetRegionTemp(temps, RegionOf(govs, name).value, month).Some?
  {
  }
}
