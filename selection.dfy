/** Choosing the places to scan: the cities or the department named on the
    command line, kept only when their latest bookable date passes the
    weekday rule. The catalogs of cities and departments come from the
    application configuration and are parameters, as is `latestDate`, which
    asks the booking service for an entity's latest date. */
module Selection {
  import opened Wrappers
  import opened Config
  import Dates

  /** `collectActiveEntities`: maps every entity whose latest date passes
      `validation` to that date, and leaves the others out. */
  method CollectActiveEntities(entities: seq<Entity>, latest: Entity -> string, validation: string -> bool)
    returns (active: map<Entity, string>)
    ensures forall e :: e in active <==> e in entities && validation(latest(e))
    ensures forall e :: e in active ==> active[e] == latest(e)
  {
    active := map[];
    var i := 0;
    while i < |entities|
      invariant 0 <= i <= |entities|
      invariant forall e :: e in active <==> e in entities[..i] && validation(latest(e))
      invariant forall e :: e in active ==> active[e] == latest(e)
    {
      var entity := entities[i];
      var entityDate := latest(entity);
      if validation(entityDate) {
        active := active[entity := entityDate];
      }
      assert entities[..i + 1] == entities[..i] + [entity];
      i := i + 1;
    }
    assert entities[..i] == entities;
  }

  /** The catalog entries with the given short name, in catalog order. */
  function WithShortName(catalog: seq<Entity>, name: string): (r: seq<Entity>)
    ensures |r| <= |catalog|
  {
    if catalog == [] then []
    else
      var last := catalog[|catalog| - 1];
      WithShortName(catalog[..|catalog| - 1], name) + (if last.shortName == name then [last] else [])
  }

  /** An entity is selected by short name exactly when it is in the catalog
      under that name. */
  lemma {:induction false} WithShortNameMembers(catalog: seq<Entity>, name: string)
    ensures forall e :: e in WithShortName(catalog, name) <==> e in catalog && e.shortName == name
  {
    if catalog != [] {
      var init := catalog[..|catalog| - 1];
      WithShortNameMembers(init, name);
      assert catalog == init + [catalog[|catalog| - 1]];
    }
  }

  /** `collectActiveDepartments`: the departments with the requested short
      name, kept when their latest date is a Tuesday or a Thursday. No
      department of that name is Go's panic "Unsupported department [...]",
      here a failure. */
  method CollectActiveDepartments(departments: seq<Entity>, enabledDepartment: string, latest: Entity -> string)
    returns (r: Result<map<Entity, string>, string>)
    ensures r.Failure? <==> forall d :: d in departments ==> d.shortName != enabledDepartment
    ensures r.Failure? ==> r.error == "Unsupported department [" + enabledDepartment + "]"
    ensures r.Success? ==> forall e :: e in r.value <==>
      e in departments && e.shortName == enabledDepartment && Dates.ValidDepartmentDate(latest(e))
    ensures r.Success? ==> forall e :: e in r.value ==> r.value[e] == latest(e)
  {
    var selected := [];
    var i := 0;
    while i < |departments|
      invariant 0 <= i <= |departments|
      invariant selected == WithShortName(departments[..i], enabledDepartment)
    {
      assert departments[..i + 1][..i] == departments[..i];
      if departments[i].shortName == enabledDepartment {
        selected := selected + [departments[i]];
      }
      i := i + 1;
    }
    assert departments[..i] == departments;
    WithShortNameMembers(departments, enabledDepartment);
    if |selected| == 0 {
      return Failure("Unsupported department [" + enabledDepartment + "]");
    }
    assert selected[0] in departments && selected[0].shortName == enabledDepartment;
    var active := CollectActiveEntities(selected, latest, Dates.ValidDepartmentDate);
    return Success(active);
  }

  /** The copies of `city` the inner loop of `collectActiveCities` adds:
      one per requested name equal to its short name. */
  function PerName(city: Entity, names: seq<string>): (r: seq<Entity>)
    ensures forall e :: e in r ==> e == city
  {
    if names == [] then []
    else PerName(city, names[..|names| - 1]) + (if city.shortName == names[|names| - 1] then [city] else [])
  }

  /** The cities `collectActiveCities` selects from a list of names: no
      list at all (Go's nil) selects the whole catalog; otherwise each
      catalog city once per matching name, in catalog order. */
  function SelectCities(catalog: seq<Entity>, enabled: Option<seq<string>>): (r: seq<Entity>)
  {
    match enabled
    case None => catalog
    case Some(names) =>
      if catalog == [] then []
      else SelectCities(catalog[..|catalog| - 1], enabled) + PerName(catalog[|catalog| - 1], names)
  }

  /** A city is added once for every requested name that matches it. */
  lemma {:induction false} PerNameCount(city: Entity, names: seq<string>)
    ensures |PerName(city, names)| == multiset(names)[city.shortName]
  {
    if names != [] {
      var init := names[..|names| - 1];
      PerNameCount(city, init);
      assert names == init + [names[|names| - 1]];
    }
  }

  /** A city is selected exactly when it is in the catalog and, when names
      were given, its short name is one of them. */
  lemma {:induction false} SelectCitiesMembers(catalog: seq<Entity>, enabled: Option<seq<string>>)
    ensures forall e :: e in SelectCities(catalog, enabled) <==>
      e in catalog && (enabled.None? || e.shortName in enabled.value)
  {
    if enabled.Some? && catalog != [] {
      var init := catalog[..|catalog| - 1];
      var last := catalog[|catalog| - 1];
      SelectCitiesMembers(init, enabled);
      PerNameCount(last, enabled.value);
      assert catalog == init + [last];
      forall e | e in catalog && e.shortName in enabled.value ensures e in SelectCities(catalog, enabled) {
        if e !in init {
          assert e == last;
          var copies := PerName(last, enabled.value);
          assert multiset(enabled.value)[last.shortName] > 0;
          assert copies[0] in copies;
        }
      }
    }
  }

  /** `collectActiveCities`: the selected cities, kept when their latest
      date is not at a weekend. */
  method CollectActiveCities(cities: seq<Entity>, enabledCities: Option<seq<string>>, latest: Entity -> string)
    returns (active: map<Entity, string>)
    ensures forall e :: e in active <==>
      e in cities && (enabledCities.None? || e.shortName in enabledCities.value)
      && Dates.ValidCityDate(latest(e))
    ensures forall e :: e in active ==> active[e] == latest(e)
  {
    var selected: seq<Entity> := [];
    if enabledCities.Some? {
      var names := enabledCities.value;
      var i := 0;
      while i < |cities|
        invariant 0 <= i <= |cities|
        invariant selected == SelectCities(cities[..i], enabledCities)
      {
        var city := cities[i];
        ghost var before := selected;
        var j := 0;
        while j < |names|
          invariant 0 <= j <= |names|
          invariant selected == before + PerName(city, names[..j])
        {
          assert names[..j + 1][..j] == names[..j];
          if city.shortName == names[j] {
            selected := selected + [city];
          }
          j := j + 1;
        }
        assert names[..j] == names;
        assert cities[..i + 1][..i] == cities[..i];
        i := i + 1;
      }
      assert cities[..i] == cities;
    } else {
      selected := cities;
    }
    SelectCitiesMembers(cities, enabledCities);
    active := CollectActiveEntities(selected, latest, Dates.ValidCityDate);
  }
}
