/** The state rule engine: list, insert, update and delete of states. A state name is
    unique ignoring case within one city, and a state's city is looked up afresh on every
    write.

    As for cities, each write is a step function on database snapshots, which states the
    rule, and a method of `StateService` that makes the same checks and repository calls in
    the same order, proved to take exactly that step. */
module StateService {
  import opened Text
  import opened Entities
  import opened Exceptions
  import opened Persistence
  import StateMapper

  /** The message of the refused insert or update of a taken (name, city) pair. */
  function TakenMessage(request: StateRequest): string
  {
    "name: " + request.name + " cityId: " + IntToString(request.cityId)
  }

  /** `insert`: the (name, city) check first, then the city lookup, then the save. */
  function InsertStep(db: Db, request: StateRequest): (out: (Result<StateResponse>, Db))
    requires WellFormed(db)
    ensures WellFormed(out.1)
    ensures StateNameTaken(db.states, request.name, request.cityId) ==>
      out == (Err(AlreadyExist(TakenMessage(request))), db)
    ensures !StateNameTaken(db.states, request.name, request.cityId) && request.cityId !in db.cities ==>
      out == (Err(NotFound("stateId: " + IntToString(request.cityId))), db)
    ensures !StateNameTaken(db.states, request.name, request.cityId) && request.cityId in db.cities ==>
      && out.0.Ok?
      && out.0.value == StateResponse(out.0.value.id, request.name, db.cities[request.cityId])
      && out.0.value.id.Some?
      && out.0.value.id.value !in db.states
      && out.1.states == db.states[out.0.value.id.value := StateRow(request.name, request.cityId)]
      && out.1.cities == db.cities
  {
    if !StateNameTaken(db.states, request.name, request.cityId) then
      match FindCity(db, request.cityId)
      case None => (Err(NotFound("stateId: " + IntToString(request.cityId))), db)
      case Some(city) =>
        var (state, db') := StateSaved(db, StateMapper.ToEntity(request, city));
        (Ok(StateMapper.ToDto(state)), db')
    else
      (Err(AlreadyExist(TakenMessage(request))), db)
  }

  /** `update`: the (name, city) check, then the state lookup, then the city lookup; the
      state is changed and saved only after both lookups succeed. */
  function UpdateStep(db: Db, request: StateRequest, id: int): (out: (Result<StateResponse>, Db))
    requires WellFormed(db)
    ensures WellFormed(out.1)
    ensures StateNameTaken(db.states, request.name, request.cityId) ==>
      out == (Err(AlreadyExist(TakenMessage(request))), db)
    ensures !StateNameTaken(db.states, request.name, request.cityId) && id !in db.states ==>
      out == (Err(NotFound("stateId: " + IntToString(id))), db)
    ensures (!StateNameTaken(db.states, request.name, request.cityId) && id in db.states
      && request.cityId !in db.cities) ==>
      out == (Err(NotFound("City not found with id: " + IntToString(request.cityId))), db)
    ensures (!StateNameTaken(db.states, request.name, request.cityId) && id in db.states
      && request.cityId in db.cities) ==>
      && out.0 == Ok(StateResponse(Some(id), request.name, db.cities[request.cityId]))
      && out.1 == db.(states := db.states[id := StateRow(request.name, request.cityId)])
  {
    if !StateNameTaken(db.states, request.name, request.cityId) then
      match FindState(db, id)
      case None => (Err(NotFound("stateId: " + IntToString(id))), db)
      case Some(state) =>
        match FindCity(db, request.cityId)
        case None => (Err(NotFound("City not found with id: " + IntToString(request.cityId))), db)
        case Some(city) =>
          var (saved, db') := StateSaved(db, state.(name := request.name, city := city));
          (Ok(StateMapper.ToDto(saved)), db')
    else
      (Err(AlreadyExist(TakenMessage(request))), db)
  }

  /** `deleteById`: the state lookup, then the delete. The response is the state as it was,
      with the name of its city. */
  function DeleteStep(db: Db, id: int): (out: (Result<StateResponse>, Db))
    requires WellFormed(db)
    ensures WellFormed(out.1)
    ensures id !in db.states ==> out == (Err(NotFound("stateId: " + IntToString(id))), db)
    ensures id in db.states ==>
      && out.0 == Ok(StateResponse(Some(id), db.states[id].name, db.cities[db.states[id].cityId]))
      && out.1 == db.(states := db.states - {id})
  {
    match FindState(db, id)
    case None => (Err(NotFound("stateId: " + IntToString(id))), db)
    case Some(state) =>
      var db' := StateDeleted(db, state.id.value);
      (Ok(StateMapper.ToDto(state)), db')
  }

  /** Insert keeps (name, city) pairs unique and never touches a city. */
  lemma InsertKeepsRules(db: Db, request: StateRequest)
    requires Consistent(db)
    ensures Consistent(InsertStep(db, request).1)
  {
    var (r, db') := InsertStep(db, request);
    if r.Ok? {
      var id := r.value.id.value;
      forall a, b | a in db'.states && b in db'.states && a != b && db'.states[a].cityId == db'.states[b].cityId
        ensures Fold(db'.states[a].name) != Fold(db'.states[b].name)
      {
        if a == id {
          assert db.states[b] == db'.states[b];
        } else if b == id {
          assert db.states[a] == db'.states[a];
        }
      }
    }
  }

  /** Update keeps (name, city) pairs unique: a state moves only to a pair no state holds. */
  lemma UpdateKeepsRules(db: Db, request: StateRequest, id: int)
    requires Consistent(db)
    ensures Consistent(UpdateStep(db, request, id).1)
  {
    var (r, db') := UpdateStep(db, request, id);
    if r.Ok? {
      forall a, b | a in db'.states && b in db'.states && a != b && db'.states[a].cityId == db'.states[b].cityId
        ensures Fold(db'.states[a].name) != Fold(db'.states[b].name)
      {
        if a == id {
          assert db.states[b] == db'.states[b];
        } else if b == id {
          assert db.states[a] == db'.states[a];
        }
      }
    }
  }

  /** Delete keeps both rules. */
  lemma DeleteKeepsRules(db: Db, id: int)
    requires Consistent(db)
    ensures Consistent(DeleteStep(db, id).1)
  {
  }

  /** An update of an existing state to an unused (name, city) pair with an existing city
      succeeds, and a later lookup shows the new name and the new city's name. */
  lemma UpdateThenFind(db: Db, request: StateRequest, id: int)
    requires WellFormed(db)
    requires id in db.states && request.cityId in db.cities
    requires !StateNameTaken(db.states, request.name, request.cityId)
    ensures var (r, db') := UpdateStep(db, request, id);
      && r.Ok?
      && FindState(db', id) == Some(State(Some(id), request.name, City(Some(request.cityId), db.cities[request.cityId])))
      && StateMapper.ToDto(FindState(db', id).value) == r.value
  {
  }

  /** Renaming a state to its own name, in any case, within its own city is refused: the
      pair check does not exclude the state being updated. */
  lemma RenameToOwnNameRefused(db: Db, id: int, name: string)
    requires WellFormed(db)
    requires id in db.states && SameIgnoringCase(name, db.states[id].name)
    ensures var request := StateRequest(name, db.states[id].cityId);
      UpdateStep(db, request, id) == (Err(AlreadyExist(TakenMessage(request))), db)
  {
    FoldEqualIff(name, db.states[id].name);
    assert StateNameTaken(db.states, name, db.states[id].cityId);
  }

  /** The rule engine for states, over the database it shares with the city service. */
  class StateService {
    const db: Database

    constructor (db: Database)
      ensures this.db == db
    {
      this.db := db;
    }

    ghost predicate Valid()
      reads this, db
    {
      db.Valid()
    }

    /** `getAll`: the responses of all states, in the order the database lists them, each
        naming the state's city as it is now. */
    method GetAll() returns (response: seq<StateResponse>)
      requires Valid()
      ensures |response| == |db.states|
      ensures exists list :: EnumeratesStates(list, db.states, db.cities) && response == StateMapper.ToDtoList(list)
    {
      var list := db.FindAllStates();
      response := StateMapper.ToDtoList(list);
    }

    method Insert(request: StateRequest) returns (result: Result<StateResponse>)
      requires Valid()
      modifies db
      ensures Valid()
      ensures (result, db.Snapshot()) == InsertStep(old(db.Snapshot()), request)
    {
      if !StateNameTaken(db.states, request.name, request.cityId) {
        var found := FindCity(db.Snapshot(), request.cityId);
        if found.None? {
          return Err(NotFound("stateId: " + IntToString(request.cityId)));
        }
        var state := db.SaveState(StateMapper.ToEntity(request, found.value));
        return Ok(StateMapper.ToDto(state));
      }
      return Err(AlreadyExist(TakenMessage(request)));
    }

    method Update(request: StateRequest, id: int) returns (result: Result<StateResponse>)
      requires Valid()
      modifies db
      ensures Valid()
      ensures (result, db.Snapshot()) == UpdateStep(old(db.Snapshot()), request, id)
    {
      if !StateNameTaken(db.states, request.name, request.cityId) {
        var foundState := FindState(db.Snapshot(), id);
        if foundState.None? {
          return Err(NotFound("stateId: " + IntToString(id)));
        }
        var foundCity := FindCity(db.Snapshot(), request.cityId);
        if foundCity.None? {
          return Err(NotFound("City not found with id: " + IntToString(request.cityId)));
        }
        var state := foundState.value.(name := request.name, city := foundCity.value);
        var saved := db.SaveState(state);
        return Ok(StateMapper.ToDto(saved));
      }
      return Err(AlreadyExist(TakenMessage(request)));
    }

    method DeleteById(id: int) returns (result: Result<StateResponse>)
      requires Valid()
      modifies db
      ensures Valid()
      ensures (result, db.Snapshot()) == DeleteStep(old(db.Snapshot()), id)
    {
      var found := FindState(db.Snapshot(), id);
      if found.None? {
        return Err(NotFound("stateId: " + IntToString(id)));
      }
      var state := found.value;
      db.DeleteStateById(state.id.value);
      return Ok(StateMapper.ToDto(state));
    }
  }
}
