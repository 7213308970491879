/** The database behind the two repositories: a city table, a state table whose rows hold a
    foreign key to the city table, and an identity counter per table. The lookups the services
    use (the built-in find by id and the derived exists-by-name-ignoring-case queries) are
    functions of its contents; the writes (save, delete by id) and the `findAll` read are the
    methods of `Database`. */
module Persistence {
  import opened Text
  import opened Entities

  /** A row of the state table: the state's name and the id of its city. */
  datatype StateRow = StateRow(name: string, cityId: int)

  /** A snapshot of the database. `violationMessage` is the text the database attaches to a
      rejected delete of a referenced city. */
  datatype Db = Db(
    cities: map<int, string>,
    states: map<int, StateRow>,
    nextCityId: int,
    nextStateId: int,
    violationMessage: string)

  /** What the database itself guarantees: identity values are handed out from 1 upwards, so
      every existing key is below the next one, and every state row's foreign key resolves. */
  predicate WellFormed(db: Db)
  {
    && 1 <= db.nextCityId
    && 1 <= db.nextStateId
    && (forall id :: id in db.cities ==> 1 <= id < db.nextCityId)
    && (forall id :: id in db.states ==> 1 <= id < db.nextStateId)
    && (forall id :: id in db.states ==> db.states[id].cityId in db.cities)
  }

  /** `existsByNameIgnoreCase`: some city's name equals `name` ignoring case. */
  predicate CityNameTaken(cities: map<int, string>, name: string): (taken: bool)
    ensures taken <==> exists id :: id in cities && SameIgnoringCase(cities[id], name)
  {
    FoldEqualsIffSame(name);
    exists id :: id in cities && Fold(cities[id]) == Fold(name)
  }

  /** A city whose name equals `name` ignoring case witnesses that the name is taken. */
  lemma CityNameTakenBy(cities: map<int, string>, id: int, name: string)
    requires id in cities && Fold(cities[id]) == Fold(name)
    ensures CityNameTaken(cities, name)
  {
  }

  /** `existsByNameIgnoreCaseAndCity_Id`: some state of city `cityId` has a name equal to
      `name` ignoring case. */
  predicate StateNameTaken(states: map<int, StateRow>, name: string, cityId: int): (taken: bool)
    ensures taken <==> exists id :: id in states && states[id].cityId == cityId && SameIgnoringCase(states[id].name, name)
  {
    FoldEqualsIffSame(name);
    exists id :: id in states && states[id].cityId == cityId && Fold(states[id].name) == Fold(name)
  }

  /** Some state row refers to city `cityId`: the foreign key that blocks a city delete. */
  predicate CityReferenced(states: map<int, StateRow>, cityId: int): (referenced: bool)
    ensures referenced <==> cityId in (set id | id in states :: states[id].cityId)
  {
    exists id :: id in states && states[id].cityId == cityId
  }

  /** The rule the city service keeps: no two cities share a name ignoring case. */
  ghost predicate CityNamesUnique(cities: map<int, string>)
  {
    forall a, b :: a in cities && b in cities && a != b ==> Fold(cities[a]) != Fold(cities[b])
  }

  /** The rule the state service keeps: within one city, no two states share a name ignoring
      case. */
  ghost predicate StateNamesUnique(states: map<int, StateRow>)
  {
    forall a, b :: a in states && b in states && a != b && states[a].cityId == states[b].cityId
      ==> Fold(states[a].name) != Fold(states[b].name)
  }

  /** A well-formed database in which both uniqueness rules hold. */
  ghost predicate Consistent(db: Db)
  {
    WellFormed(db) && CityNamesUnique(db.cities) && StateNamesUnique(db.states)
  }

  /** `findById` on the city table. */
  function FindCity(db: Db, id: int): (found: Option<City>)
    ensures found.Some? <==> id in db.cities
    ensures found.Some? ==> found.value.id == Some(id) && found.value.name == db.cities[id]
  {
    if id in db.cities then Some(City(Some(id), db.cities[id])) else None
  }

  /** `findById` on the state table; the state's city is resolved through the foreign key. */
  function FindState(db: Db, id: int): (found: Option<State>)
    requires WellFormed(db)
    ensures found.Some? <==> id in db.states
    ensures found.Some? ==>
      && found.value.id == Some(id)
      && found.value.name == db.states[id].name
      && FindCity(db, db.states[id].cityId) == Some(found.value.city)
  {
    if id in db.states then
      var row := db.states[id];
      Some(State(Some(id), row.name, City(Some(row.cityId), db.cities[row.cityId])))
    else None
  }

  /** `save` on the city table: a city without id is inserted under the next identity value,
      a city with id overwrites that row. Returns the saved entity and the new database. */
  function CitySaved(db: Db, city: City): (City, Db)
    requires city.id.None? || city.id.value in db.cities
  {
    if city.id.None? then
      var id := db.nextCityId;
      (City(Some(id), city.name), db.(cities := db.cities[id := city.name], nextCityId := id + 1))
    else
      (city, db.(cities := db.cities[city.id.value := city.name]))
  }

  /** `deleteById` on the city table. The foreign key of the state table rejects the delete
      while a state refers to the city; the result says whether the row was deleted. */
  function CityDeleted(db: Db, id: int): (bool, Db)
  {
    if CityReferenced(db.states, id) then (false, db)
    else (true, db.(cities := db.cities - {id}))
  }

  /** `save` on the state table; the row stores the id of the state's city. */
  function StateSaved(db: Db, state: State): (State, Db)
    requires state.city.id.Some? && state.city.id.value in db.cities
    requires state.id.None? || state.id.value in db.states
  {
    var row := StateRow(state.name, state.city.id.value);
    if state.id.None? then
      var id := db.nextStateId;
      (state.(id := Some(id)), db.(states := db.states[id := row], nextStateId := id + 1))
    else
      (state, db.(states := db.states[state.id.value := row]))
  }

  /** `deleteById` on the state table; nothing refers to a state, so it always succeeds. */
  function StateDeleted(db: Db, id: int): Db
  {
    db.(states := db.states - {id})
  }

  /** `list` holds every city of the table exactly once, in some order. */
  ghost predicate EnumeratesCities(list: seq<City>, cities: map<int, string>)
  {
    && (forall i :: 0 <= i < |list| ==>
          list[i].id.Some? && list[i].id.value in cities && list[i].name == cities[list[i].id.value])
    && (forall i, j :: 0 <= i < j < |list| ==> list[i].id != list[j].id)
    && (forall id :: id in cities ==> exists i :: 0 <= i < |list| && list[i].id == Some(id))
  }

  /** `list` holds every state of the table exactly once, in some order, each with its city
      resolved through the foreign key. */
  ghost predicate EnumeratesStates(list: seq<State>, states: map<int, StateRow>, cities: map<int, string>)
  {
    && (forall i :: 0 <= i < |list| ==>
          && list[i].id.Some? && list[i].id.value in states
          && var row := states[list[i].id.value];
          && row.cityId in cities
          && list[i].name == row.name
          && list[i].city == City(Some(row.cityId), cities[row.cityId]))
    && (forall i, j :: 0 <= i < j < |list| ==> list[i].id != list[j].id)
    && (forall id :: id in states ==> exists i :: 0 <= i < |list| && list[i].id == Some(id))
  }

  /** A non-empty set of keys has a member to pick. */
  lemma NonEmptyHasMember(s: set<int>)
    requires s != {}
    ensures exists x :: x in s
  {
    if forall x :: x !in s {
      assert false;
    }
  }

  /** The database, with its tables as maps; its writes are those the two services issue. */
  class Database {
    const violationMessage: string
    var cities: map<int, string>
    var states: map<int, StateRow>
    var nextCityId: int
    var nextStateId: int

    /** The current contents as a value. */
    function Snapshot(): Db
      reads this
    {
      Db(cities, states, nextCityId, nextStateId, violationMessage)
    }

    ghost predicate Valid()
      reads this
    {
      WellFormed(Snapshot())
    }

    /** An empty database. */
    constructor (violationMessage: string)
      ensures Valid()
      ensures Snapshot() == Db(map[], map[], 1, 1, violationMessage)
    {
      this.violationMessage := violationMessage;
      cities := map[];
      states := map[];
      nextCityId := 1;
      nextStateId := 1;
    }

    method SaveCity(city: City) returns (saved: City)
      requires Valid()
      requires city.id.None? || city.id.value in cities
      modifies this
      ensures Valid()
      ensures (saved, Snapshot()) == CitySaved(old(Snapshot()), city)
    {
      if city.id.None? {
        saved := City(Some(nextCityId), city.name);
        cities := cities[nextCityId := city.name];
        nextCityId := nextCityId + 1;
      } else {
        saved := city;
        cities := cities[city.id.value := city.name];
      }
    }

    method DeleteCityById(id: int) returns (deleted: bool)
      requires Valid()
      modifies this
      ensures Valid()
      ensures (deleted, Snapshot()) == CityDeleted(old(Snapshot()), id)
    {
      deleted := !CityReferenced(states, id);
      if deleted {
        cities := cities - {id};
      }
    }

    method SaveState(state: State) returns (saved: State)
      requires Valid()
      requires state.city.id.Some? && state.city.id.value in cities
      requires state.id.None? || state.id.value in states
      modifies this
      ensures Valid()
      ensures (saved, Snapshot()) == StateSaved(old(Snapshot()), state)
    {
      var row := StateRow(state.name, state.city.id.value);
      if state.id.None? {
        saved := state.(id := Some(nextStateId));
        states := states[nextStateId := row];
        nextStateId := nextStateId + 1;
      } else {
        saved := state;
        states := states[state.id.value := row];
      }
    }

    method DeleteStateById(id: int)
      requires Valid()
      modifies this
      ensures Valid()
      ensures Snapshot() == StateDeleted(old(Snapshot()), id)
    {
      states := states - {id};
    }

    /** `findAll` on the city table: every city once, in an order the database chooses. */
    method FindAllCities() returns (list: seq<City>)
      ensures |list| == |cities|
      ensures EnumeratesCities(list, cities)
    {
      list := [];
      var remaining := cities.Keys;
      while remaining != {}
        invariant remaining <= cities.Keys
        invariant |list| + |remaining| == |cities|
        invariant EnumeratesCities(list, cities - remaining)
        decreases remaining
      {
        NonEmptyHasMember(remaining);
        var id :| id in remaining;
        ghost var before := list;
        list := list + [City(Some(id), cities[id])];
        assert forall i :: 0 <= i < |before| ==> list[i] == before[i];
        assert list[|before|].id == Some(id);
        remaining := remaining - {id};
      }
      assert remaining == {};
      assert cities - remaining == cities;
    }

    /** `findAll` on the state table: every state once, in an order the database chooses,
        each with its city loaded. */
    method FindAllStates() returns (list: seq<State>)
      requires Valid()
      ensures |list| == |states|
      ensures EnumeratesStates(list, states, cities)
    {
      list := [];
      var remaining := states.Keys;
      while remaining != {}
        invariant remaining <= states.Keys
        invariant |list| + |remaining| == |states|
        invariant EnumeratesStates(list, states - remaining, cities)
        decreases remaining
      {
        NonEmptyHasMember(remaining);
        var id :| id in remaining;
        var row := states[id];
        ghost var before := list;
        list := list + [State(Some(id), row.name, City(Some(row.cityId), cities[row.cityId]))];
        assert forall i :: 0 <= i < |before| ==> list[i] == before[i];
        assert list[|before|].id == Some(id);
        remaining := remaining - {id};
      }
      assert remaining == {};
      assert states - remaining == states;
    }
  }
}
