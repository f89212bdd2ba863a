/** The area → country → city catalogue: flattening it into one city list,
    looking an area up by id, and choosing the city nearest a point. The
    catalogue itself is a parameter, and so is the distance from the point
    to a city (the source uses the haversine great-circle distance). */
module CountryData {
  import opened Wrappers

  datatype City = City(id: string, lat: real, lng: real, localKeywords: seq<string>)

  datatype Country = Country(
    code: string,
    flag: string,
    lat: real,
    lng: real,
    zoom: real,
    regionCode: string,
    cities: seq<City>)

  datatype Area = Area(id: string, icon: string, lat: real, lng: real, zoom: real, countries: seq<Country>)

  /** A city with its country's code, flag and YouTube region code. */
  datatype FlatCity = FlatCity(city: City, countryCode: string, countryFlag: string, regionCode: string)

  function Flat(city: City, country: Country): FlatCity {
    FlatCity(city, country.code, country.flag, country.regionCode)
  }

  // ---------------------------------------------------------------------
  // getAllCities
  // ---------------------------------------------------------------------

  function FlattenCountry(country: Country): (r: seq<FlatCity>)
    ensures |r| == |country.cities|
    ensures forall k :: 0 <= k < |r| ==> r[k] == Flat(country.cities[k], country)
  {
    seq(|country.cities|, k requires 0 <= k < |country.cities| => Flat(country.cities[k], country))
  }

  function FlattenCountries(countries: seq<Country>): seq<FlatCity>
    decreases |countries|
  {
    if |countries| == 0 then []
    else FlattenCountries(countries[..|countries| - 1]) + FlattenCountry(countries[|countries| - 1])
  }

  /** `getAllCities()`: every city, area by area, country by country. */
  function AllCities(areas: seq<Area>): seq<FlatCity>
    decreases |areas|
  {
    if |areas| == 0 then []
    else AllCities(areas[..|areas| - 1]) + FlattenCountries(areas[|areas| - 1].countries)
  }

  /** Reference count: the number of cities of a list of countries. */
  function CityCount(countries: seq<Country>): nat
    decreases |countries|
  {
    if |countries| == 0 then 0
    else CityCount(countries[..|countries| - 1]) + |countries[|countries| - 1].cities|
  }

  function TotalCities(areas: seq<Area>): nat
    decreases |areas|
  {
    if |areas| == 0 then 0
    else TotalCities(areas[..|areas| - 1]) + CityCount(areas[|areas| - 1].countries)
  }

  /** The `k`-th city of the `c`-th country lands after all cities of the
      earlier countries. */
  lemma {:induction false} FlattenCountriesIndex(countries: seq<Country>, c: nat, k: nat)
    requires c < |countries| && k < |countries[c].cities|
    ensures |FlattenCountries(countries)| == CityCount(countries)
    ensures CityCount(countries[..c]) + k < |FlattenCountries(countries)|
    ensures FlattenCountries(countries)[CityCount(countries[..c]) + k] == Flat(countries[c].cities[k], countries[c])
    decreases |countries|
  {
    var n := |countries| - 1;
    var prefix := countries[..n];
    FlattenCountriesLength(prefix);
    if c < n {
      assert prefix[c] == countries[c];
      assert prefix[..c] == countries[..c];
      FlattenCountriesIndex(prefix, c, k);
    } else {
      assert countries[..c] == prefix;
    }
  }

  lemma {:induction false} FlattenCountriesLength(countries: seq<Country>)
    ensures |FlattenCountries(countries)| == CityCount(countries)
    decreases |countries|
  {
    if |countries| > 0 {
      FlattenCountriesLength(countries[..|countries| - 1]);
    }
  }

  /** `getAllCities` has one entry per city. */
  lemma {:induction false} AllCitiesLength(areas: seq<Area>)
    ensures |AllCities(areas)| == TotalCities(areas)
    decreases |areas|
  {
    if |areas| > 0 {
      AllCitiesLength(areas[..|areas| - 1]);
      FlattenCountriesLength(areas[|areas| - 1].countries);
    }
  }

  /** The position of the `k`-th city of country `c` of area `a`: all cities
      of earlier areas, then of earlier countries of the same area, come first. */
  function CityPosition(areas: seq<Area>, a: nat, c: nat, k: nat): nat
    requires a < |areas| && c <= |areas[a].countries|
  {
    TotalCities(areas[..a]) + CityCount(areas[a].countries[..c]) + k
  }

  /** `getAllCities` lists each city, carrying its own country's code, flag
      and region code, at its area → country → city position. */
  lemma {:induction false} AllCitiesIndex(areas: seq<Area>, a: nat, c: nat, k: nat)
    requires a < |areas| && c < |areas[a].countries| && k < |areas[a].countries[c].cities|
    ensures CityPosition(areas, a, c, k) < |AllCities(areas)|
    ensures AllCities(areas)[CityPosition(areas, a, c, k)]
         == Flat(areas[a].countries[c].cities[k], areas[a].countries[c])
    decreases |areas|
  {
    var n := |areas| - 1;
    var prefix := areas[..n];
    AllCitiesLength(prefix);
    if a < n {
      assert prefix[a] == areas[a];
      assert prefix[..a] == areas[..a];
      AllCitiesIndex(prefix, a, c, k);
    } else {
      assert areas[..a] == prefix;
      FlattenCountriesIndex(areas[a].countries, c, k);
    }
  }

  // ---------------------------------------------------------------------
  // getAreaById
  // ---------------------------------------------------------------------

  /** `AREAS.find(a => a.id === id)`. */
  function AreaById(areas: seq<Area>, id: string): (r: Option<Area>)
    ensures r.None? <==> forall i :: 0 <= i < |areas| ==> areas[i].id != id
    ensures r.Some? ==> exists i :: (0 <= i < |areas| && areas[i] == r.value && r.value.id == id
      && forall j :: 0 <= j < i ==> areas[j].id != id)
    decreases |areas|
  {
    if |areas| == 0 then None
    else if areas[0].id == id then Some(areas[0])
    else
      var r := AreaById(areas[1..], id);
      assert forall i :: 1 <= i < |areas| ==> areas[i] == areas[1..][i - 1];
      if r.Some? then
        var i :| 0 <= i < |areas[1..]| && areas[1..][i] == r.value && r.value.id == id
          && forall j :: 0 <= j < i ==> areas[1..][j].id != id;
        assert areas[i + 1] == r.value;
        r
      else r
  }

  // ---------------------------------------------------------------------
  // getNearestCity
  // ---------------------------------------------------------------------

  /** A city together with the country and area it is listed under. */
  datatype Placement = Placement(city: City, country: Country, area: Area)

  function PlaceCountry(country: Country, area: Area): (r: seq<Placement>)
    ensures |r| == |country.cities|
    ensures forall k :: 0 <= k < |r| ==> r[k] == Placement(country.cities[k], country, area)
  {
    seq(|country.cities|, k requires 0 <= k < |country.cities| => Placement(country.cities[k], country, area))
  }

  function PlaceCountries(countries: seq<Country>, area: Area): seq<Placement>
    decreases |countries|
  {
    if |countries| == 0 then []
    else PlaceCountries(countries[..|countries| - 1], area) + PlaceCountry(countries[|countries| - 1], area)
  }

  /** The cities in the order the three nested loops visit them. */
  function Placements(areas: seq<Area>): seq<Placement>
    decreases |areas|
  {
    if |areas| == 0 then []
    else Placements(areas[..|areas| - 1]) + PlaceCountries(areas[|areas| - 1].countries, areas[|areas| - 1])
  }

  /** Each visited city is listed under its country, which is listed under
      its area, which is in the catalogue. */
  predicate Contained(p: Placement, areas: seq<Area>) {
    p.area in areas && p.country in p.area.countries && p.city in p.country.cities
  }

  lemma {:induction false} PlaceCountriesContained(countries: seq<Country>, area: Area)
    requires forall c :: c in countries ==> c in area.countries
    ensures forall p :: p in PlaceCountries(countries, area) ==>
      p.area == area && p.country in area.countries && p.city in p.country.cities
    decreases |countries|
  {
    if |countries| > 0 {
      var n := |countries| - 1;
      assert countries[n] in countries;
      assert forall c :: c in countries[..n] ==> c in countries;
      PlaceCountriesContained(countries[..n], area);
      var last := PlaceCountry(countries[n], area);
      forall p | p in last ensures p.city in p.country.cities {
        var k :| 0 <= k < |last| && last[k] == p;
      }
    }
  }

  lemma {:induction false} PlacementsContained(areas: seq<Area>)
    ensures forall p :: p in Placements(areas) ==> Contained(p, areas)
    decreases |areas|
  {
    if |areas| > 0 {
      var n := |areas| - 1;
      PlacementsContained(areas[..n]);
      assert forall a :: a in areas[..n] ==> a in areas;
      PlaceCountriesContained(areas[n].countries, areas[n]);
    }
  }

  /** The visiting order agrees with `getAllCities`. */
  lemma {:induction false} PlaceCountriesFlat(countries: seq<Country>, area: Area)
    ensures |PlaceCountries(countries, area)| == |FlattenCountries(countries)|
    ensures forall i :: 0 <= i < |FlattenCountries(countries)| ==>
      FlattenCountries(countries)[i] == Flat(PlaceCountries(countries, area)[i].city, PlaceCountries(countries, area)[i].country)
    decreases |countries|
  {
    if |countries| > 0 {
      PlaceCountriesFlat(countries[..|countries| - 1], area);
    }
  }

  lemma {:induction false} PlacementsFlat(areas: seq<Area>)
    ensures |Placements(areas)| == |AllCities(areas)|
    ensures forall i :: 0 <= i < |AllCities(areas)| ==>
      AllCities(areas)[i] == Flat(Placements(areas)[i].city, Placements(areas)[i].country)
    decreases |areas|
  {
    if |areas| > 0 {
      var n := |areas| - 1;
      PlacementsFlat(areas[..n]);
      PlaceCountriesFlat(areas[n].countries, areas[n]);
    }
  }

  /** What `getNearestCity` returns. */
  datatype Nearest = Nearest(city: FlatCity, country: Country, area: Area)

  datatype CatalogueError = NoCities

  /** `getNearestCity`: the first city, in visiting order, at the least
      distance; the search fails exactly when the catalogue has no city. */
  method NearestCity(areas: seq<Area>, dist: City -> real) returns (r: Result<Nearest, CatalogueError>)
    ensures r.Failure? <==> TotalCities(areas) == 0
    ensures r.Success? ==> exists i :: (0 <= i < |Placements(areas)|
      && var p := Placements(areas)[i];
      && r.value == Nearest(Flat(p.city, p.country), p.country, p.area)
      && Contained(p, areas)
      && (forall j :: 0 <= j < |Placements(areas)| ==> dist(p.city) <= dist(Placements(areas)[j].city))
      && (forall j :: 0 <= j < i ==> dist(Placements(areas)[j].city) > dist(p.city)))
  {
    var ps := Placements(areas);
    PlacementsFlat(areas);
    AllCitiesLength(areas);
    var found := false;
    var best := 0;
    var bestDist: real := 0.0;
    for i := 0 to |ps|
      invariant found <==> i > 0
      invariant found ==> best < i && bestDist == dist(ps[best].city)
      invariant found ==> forall j :: 0 <= j < i ==> bestDist <= dist(ps[j].city)
      invariant found ==> forall j :: 0 <= j < best ==> dist(ps[j].city) > bestDist
    {
      var d := dist(ps[i].city);
      if !found || d < bestDist {
        found, best, bestDist := true, i, d;
      }
    }
    if !found {
      return Failure(NoCities);
    }
    var p := ps[best];
    PlacementsContained(areas);
    r := Success(Nearest(Flat(p.city, p.country), p.country, p.area));
  }
}
