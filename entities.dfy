/** The records the services pass around: persisted entities, incoming request bodies and
    outgoing response bodies. */
module Entities {

  /** A nullable value; an entity's identifier is absent until the database assigns it. */
  datatype Option<+T> = None | Some(value: T)

  /** A persisted city. */
  datatype City = City(id: Option<int>, name: string)

  /** A persisted state; it holds the city it belongs to. */
  datatype State = State(id: Option<int>, name: string, city: City)

  /** Body of a create or update request for a city. */
  datatype CityRequest = CityRequest(name: string)

  /** Body of a create or update request for a state: its name and the id of its city. */
  datatype StateRequest = StateRequest(name: string, cityId: int)

  /** Response body for a city: `{id, name}`. */
  datatype CityResponse = CityResponse(id: Option<int>, name: string)

  /** Response body for a state: `{id, name, cityName}`. */
  datatype StateResponse = StateResponse(id: Option<int>, name: string, cityName: string)
}
