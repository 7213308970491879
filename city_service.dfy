/** The city rule engine: list, insert, update and delete of cities, with a city name unique
    ignoring case across the whole city table.

    Each write is given twice: as a step function from a database snapshot to the result and
    the next snapshot, which states the rule, and as a method of `CityService` that performs
    the same checks and repository calls in the same order on the shared `Database`, proved to
    take exactly that step. */
module CityService {
  import opened Text
  import opened Entities
  import opened Exceptions
  import opened Persistence
  import CityMapper

  /** `insert`: the name check first; if the name is free, a new city is saved. */
  function InsertStep(db: Db, request: CityRequest): (out: (Result<CityResponse>, Db))
    requires WellFormed(db)
    ensures WellFormed(out.1)
    ensures out.0.Err? <==> CityNameTaken(db.cities, request.name)
    ensures out.0.Err? ==> out == (Err(AlreadyExist("name: " + request.name)), db)
    ensures out.0.Ok? ==>
      && out.0.value.name == request.name
      && out.0.value.id.Some?
      && out.0.value.id.value !in db.cities
      && out.1.cities == db.cities[out.0.value.id.value := request.name]
      && out.1.states == db.states
  {
    if !CityNameTaken(db.cities, request.name) then
      var (city, db') := CitySaved(db, CityMapper.ToEntity(request));
      (Ok(CityMapper.ToDto(city)), db')
    else
      (Err(AlreadyExist("name: " + request.name)), db)
  }

  /** `update`: the name check runs before the id lookup and does not exclude city `id`
      itself; only then is the city renamed and saved. */
  function UpdateStep(db: Db, request: CityRequest, id: int): (out: (Result<CityResponse>, Db))
    requires WellFormed(db)
    ensures WellFormed(out.1)
    ensures CityNameTaken(db.cities, request.name) ==>
      out == (Err(AlreadyExist("name: " + request.name)), db)
    ensures !CityNameTaken(db.cities, request.name) && id !in db.cities ==>
      out == (Err(NotFound("cityId: " + IntToString(id))), db)
    ensures !CityNameTaken(db.cities, request.name) && id in db.cities ==>
      && out.0 == Ok(CityResponse(Some(id), request.name))
      && out.1 == db.(cities := db.cities[id := request.name])
  {
    if !CityNameTaken(db.cities, request.name) then
      match FindCity(db, id)
      case None => (Err(NotFound("cityId: " + IntToString(id))), db)
      case Some(city) =>
        var (saved, db') := CitySaved(db, city.(name := request.name));
        (Ok(CityMapper.ToDto(saved)), db')
    else
      (Err(AlreadyExist("name: " + request.name)), db)
  }

  /** `deleteById`: the id lookup, then the delete, which the database refuses while a
      state refers to the city. The response is the city as it was before the delete. */
  function DeleteStep(db: Db, id: int): (out: (Result<CityResponse>, Db))
    requires WellFormed(db)
    ensures WellFormed(out.1)
    ensures id !in db.cities ==> out == (Err(NotFound("cityId: {}" + IntToString(id))), db)
    ensures id in db.cities && CityReferenced(db.states, id) ==>
      out == (Err(DataIntegrityViolation(db.violationMessage)), db)
    ensures id in db.cities && !CityReferenced(db.states, id) ==>
      && out.0 == Ok(CityResponse(Some(id), db.cities[id]))
      && out.1 == db.(cities := db.cities - {id})
  {
    match FindCity(db, id)
    case None => (Err(NotFound("cityId: {}" + IntToString(id))), db)
    case Some(city) =>
      var (deleted, db') := CityDeleted(db, city.id.value);
      if deleted then (Ok(CityMapper.ToDto(city)), db')
      else (Err(DataIntegrityViolation(db.violationMessage)), db)
  }

  /** Insert keeps city names unique ignoring case, and touches no state. */
  lemma InsertKeepsRules(db: Db, request: CityRequest)
    requires Consistent(db)
    ensures Consistent(InsertStep(db, request).1)
  {
    var (r, db') := InsertStep(db, request);
    if r.Ok? {
      var id := r.value.id.value;
      forall a, b | a in db'.cities && b in db'.cities && a != b
        ensures Fold(db'.cities[a]) != Fold(db'.cities[b])
      {
        if a == id {
          assert db.cities[b] == db'.cities[b];
        } else if b == id {
          assert db.cities[a] == db'.cities[a];
        }
      }
    }
  }

  /** Update keeps city names unique ignoring case: a rename succeeds only with a name no
      city holds. */
  lemma UpdateKeepsRules(db: Db, request: CityRequest, id: int)
    requires Consistent(db)
    ensures Consistent(UpdateStep(db, request, id).1)
  {
    var (r, db') := UpdateStep(db, request, id);
    if r.Ok? {
      forall a, b | a in db'.cities && b in db'.cities && a != b
        ensures Fold(db'.cities[a]) != Fold(db'.cities[b])
      {
        if a == id {
          assert db.cities[b] == db'.cities[b];
        } else if b == id {
          assert db.cities[a] == db'.cities[a];
        }
      }
    }
  }

  /** Delete keeps both rules; in particular no state is left pointing at a missing city. */
  lemma DeleteKeepsRules(db: Db, id: int)
    requires Consistent(db)
    ensures Consistent(DeleteStep(db, id).1)
  {
  }

  /** Two names that differ only in case cannot both be inserted: once the first is in, the
      second is refused and changes nothing. */
  lemma CaseVariantRefused(db: Db, first: string, second: string)
    requires WellFormed(db)
    requires SameIgnoringCase(first, second)
    ensures var (r1, db1) := InsertStep(db, CityRequest(first));
      r1.Ok? ==> InsertStep(db1, CityRequest(second)) == (Err(AlreadyExist("name: " + second)), db1)
  {
    FoldEqualIff(first, second);
    var (r1, db1) := InsertStep(db, CityRequest(first));
    if r1.Ok? {
      var id := r1.value.id.value;
      assert id in db1.cities && Fold(db1.cities[id]) == Fold(second);
    }
  }

  /** After a successful insert exactly one city has the new name ignoring case: the one
      whose id the response carries. */
  lemma InsertedNameIsUnique(db: Db, request: CityRequest)
    requires WellFormed(db)
    ensures var (r, db') := InsertStep(db, request);
      r.Ok? ==> forall k :: k in db'.cities && Fold(db'.cities[k]) == Fold(request.name) <==> Some(k) == r.value.id
  {
  }

  /** Renaming a city to its own name, in any case, is refused: the name check does not
      exclude the city being updated. */
  lemma RenameToOwnNameRefused(db: Db, id: int, name: string)
    requires WellFormed(db)
    requires id in db.cities && SameIgnoringCase(name, db.cities[id])
    ensures UpdateStep(db, CityRequest(name), id) == (Err(AlreadyExist("name: " + name)), db)
  {
    FoldEqualIff(name, db.cities[id]);
    assert CityNameTaken(db.cities, name);
  }

  /** The rule engine for cities, over the database it shares with the state service. */
  class CityService {
    const db: Database

    constructor (db: Database)
      ensures this.db == db
    {
      this.db := db;
    }

    ghost predicate Valid()
      reads this, db
    {
      db.Valid()
    }

    /** `getAll`: the responses of all cities, in the order the database lists them. */
    method GetAll() returns (response: seq<CityResponse>)
      ensures |response| == |db.cities|
      ensures exists list :: EnumeratesCities(list, db.cities) && response == CityMapper.ToDtoList(list)
    {
      var list := db.FindAllCities();
      response := CityMapper.ToDtoList(list);
    }

    method Insert(request: CityRequest) returns (result: Result<CityResponse>)
      requires Valid()
      modifies db
      ensures Valid()
      ensures (result, db.Snapshot()) == InsertStep(old(db.Snapshot()), request)
    {
      if !CityNameTaken(db.cities, request.name) {
        var city := db.SaveCity(CityMapper.ToEntity(request));
        return Ok(CityMapper.ToDto(city));
      }
      return Err(AlreadyExist("name: " + request.name));
    }

    method Update(request: CityRequest, id: int) returns (result: Result<CityResponse>)
      requires Valid()
      modifies db
      ensures Valid()
      ensures (result, db.Snapshot()) == UpdateStep(old(db.Snapshot()), request, id)
    {
      if !CityNameTaken(db.cities, request.name) {
        var found := FindCity(db.Snapshot(), id);
        if found.None? {
          return Err(NotFound("cityId: " + IntToString(id)));
        }
        var city := found.value.(name := request.name);
        var saved := db.SaveCity(city);
        return Ok(CityMapper.ToDto(saved));
      }
      return Err(AlreadyExist("name: " + request.name));
    }

    method DeleteById(id: int) returns (result: Result<CityResponse>)
      requires Valid()
      modifies db
      ensures Valid()
      ensures (result, db.Snapshot()) == DeleteStep(old(db.Snapshot()), id)
    {
      var found := FindCity(db.Snapshot(), id);
      if found.None? {
        return Err(NotFound("cityId: {}" + IntToString(id)));
      }
      var city := found.value;
      var deleted := db.DeleteCityById(city.id.value);
      if !deleted {
        return Err(DataIntegrityViolation(db.violationMessage));
      }
      return Ok(CityMapper.ToDto(city));
    }
  }
}
