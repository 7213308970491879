/** Properties that involve both rule engines at once: deletes blocked by references, names
    resolved at read time, and a complete walk through both services from an empty database. */
module Scenarios {
  import opened Text
  import opened Entities
  import opened Exceptions
  import opened Persistence
  import CityService
  import StateService
  import StateMapper

  /** While a state refers to a city, deleting the city fails and both tables stay as they
      were; when that state was the city's last one, deleting it first lets the city go. */
  lemma DeleteBlockedWhileReferenced(db: Db, stateId: int)
    requires WellFormed(db) && stateId in db.states
    ensures var cityId := db.states[stateId].cityId;
      CityService.DeleteStep(db, cityId) == (Err(DataIntegrityViolation(db.violationMessage)), db)
    ensures var cityId := db.states[stateId].cityId;
      (forall k :: k in db.states && k != stateId ==> db.states[k].cityId != cityId) ==>
      var db1 := StateService.DeleteStep(db, stateId).1;
      CityService.DeleteStep(db1, cityId) == (Ok(CityResponse(Some(cityId), db.cities[cityId])), db1.(cities := db.cities - {cityId}))
  {
    assert CityReferenced(db.states, db.states[stateId].cityId);
  }

  /** A state's response names its city as the city is now: renaming a city shows in every
      state of that city read afterwards. */
  lemma CityRenameShowsInStates(db: Db, cityId: int, name: string, stateId: int)
    requires WellFormed(db)
    requires stateId in db.states && db.states[stateId].cityId == cityId
    ensures var (r, db') := CityService.UpdateStep(db, CityRequest(name), cityId);
      r.Ok? ==> (FindState(db', stateId).Some?
        && StateMapper.ToDto(FindState(db', stateId).value) == StateResponse(Some(stateId), db.states[stateId].name, name))
  {
  }

  /** `Springfield` and `springfield` fold to the same name. */
  lemma SpringfieldFold()
    ensures Fold("Springfield") == Fold("springfield")
  {
    FoldEqualIff("Springfield", "springfield");
    assert UpperChar('S') == UpperChar('s');
  }

  /** The snapshots of the walkthrough below, after each successful write. */
  function AfterCityInsert(violation: string): Db
  {
    Db(map[1 := "Springfield"], map[], 2, 1, violation)
  }

  function AfterStateInsert(violation: string): Db
  {
    Db(map[1 := "Springfield"], map[1 := StateRow("IL", 1)], 2, 2, violation)
  }

  function AfterStateDelete(violation: string): Db
  {
    Db(map[1 := "Springfield"], map[], 2, 2, violation)
  }

  /** The first insert into an empty database gets id 1. */
  lemma WalkInsertCity(violation: string)
    ensures CityService.InsertStep(Db(map[], map[], 1, 1, violation), CityRequest("Springfield"))
      == (Ok(CityResponse(Some(1), "Springfield")), AfterCityInsert(violation))
  {
    assert !CityNameTaken(map[], "Springfield");
  }

  /** After the first insert, the lower-case variant counts as taken. */
  lemma SpringfieldTaken(violation: string)
    ensures CityNameTaken(AfterCityInsert(violation).cities, "springfield")
  {
    SpringfieldFold();
    CityNameTakenBy(AfterCityInsert(violation).cities, 1, "springfield");
  }

  /** The lower-case variant is refused and nothing changes. */
  lemma WalkRefuseVariant(violation: string)
    ensures CityService.InsertStep(AfterCityInsert(violation), CityRequest("springfield"))
      == (Err(AlreadyExist("name: " + "springfield")), AfterCityInsert(violation))
  {
    SpringfieldTaken(violation);
  }

  /** A state of city 1 is inserted under id 1 and names the city. */
  lemma WalkInsertState(violation: string)
    ensures StateService.InsertStep(AfterCityInsert(violation), StateRequest("IL", 1))
      == (Ok(StateResponse(Some(1), "IL", "Springfield")), AfterStateInsert(violation))
  {
  }

  /** The city delete is refused while the state exists; the state delete and then the city
      delete go through. */
  lemma WalkDeletes(violation: string)
    ensures CityService.DeleteStep(AfterStateInsert(violation), 1)
      == (Err(DataIntegrityViolation(violation)), AfterStateInsert(violation))
    ensures StateService.DeleteStep(AfterStateInsert(violation), 1)
      == (Ok(StateResponse(Some(1), "IL", "Springfield")), AfterStateDelete(violation))
    ensures CityService.DeleteStep(AfterStateDelete(violation), 1)
      == (Ok(CityResponse(Some(1), "Springfield")), Db(map[], map[], 2, 2, violation))
  {
    var states := AfterStateInsert(violation).states;
    assert 1 in states && states[1].cityId == 1;
    assert CityReferenced(states, 1);
    assert AfterStateInsert(violation).states - {1} == map[];
    assert AfterStateDelete(violation).cities - {1} == map[];
  }

  /** From an empty database: a city is inserted under id 1; its lower-case variant is
      refused; a state of that city is inserted under id 1 and names the city; the city
      cannot be deleted while the state exists; the state is deleted; then the city is. */
  lemma SpringfieldWalkthrough(violation: string)
    ensures
      var db0 := Db(map[], map[], 1, 1, violation);
      var (r1, db1) := CityService.InsertStep(db0, CityRequest("Springfield"));
      && r1 == Ok(CityResponse(Some(1), "Springfield"))
      && var (r2, db2) := CityService.InsertStep(db1, CityRequest("springfield"));
      && r2 == Err(AlreadyExist("name: " + "springfield")) && db2 == db1
      && var (r3, db3) := StateService.InsertStep(db2, StateRequest("IL", 1));
      && r3 == Ok(StateResponse(Some(1), "IL", "Springfield"))
      && var (r4, db4) := CityService.DeleteStep(db3, 1);
      && r4 == Err(DataIntegrityViolation(violation)) && db4 == db3
      && var (r5, db5) := StateService.DeleteStep(db4, 1);
      && r5 == Ok(StateResponse(Some(1), "IL", "Springfield"))
      && var (r6, db6) := CityService.DeleteStep(db5, 1);
      && r6 == Ok(CityResponse(Some(1), "Springfield"))
      && db6.cities == map[] && db6.states == map[]
  {
    WalkInsertCity(violation);
    WalkRefuseVariant(violation);
    WalkInsertState(violation);
    WalkDeletes(violation);
  }

  /** The same walk through the service objects, on one freshly constructed database shared
      by both services: each call returns what the walkthrough above predicts. */
  method RunWalkthrough(violation: string)
    returns (r1: Result<CityResponse>, r2: Result<CityResponse>, r3: Result<StateResponse>,
             r4: Result<CityResponse>, r5: Result<StateResponse>, r6: Result<CityResponse>)
    ensures r1 == Ok(CityResponse(Some(1), "Springfield"))
    ensures r2 == Err(AlreadyExist("name: " + "springfield"))
    ensures r3 == Ok(StateResponse(Some(1), "IL", "Springfield"))
    ensures r4 == Err(DataIntegrityViolation(violation))
    ensures r5 == Ok(StateResponse(Some(1), "IL", "Springfield"))
    ensures r6 == Ok(CityResponse(Some(1), "Springfield"))
  {
    var db := new Database(violation);
    var cities := new CityService.CityService(db);
    var states := new StateService.StateService(db);
    WalkInsertCity(violation);
    WalkRefuseVariant(violation);
    WalkInsertState(violation);
    WalkDeletes(violation);
    r1 := cities.Insert(CityRequest("Springfield"));
    r2 := cities.Insert(CityRequest("springfield"));
    r3 := states.Insert(StateRequest("IL", 1));
    r4 := cities.DeleteById(1);
    r5 := states.DeleteById(1);
    r6 := cities.DeleteById(1);
  }
}
