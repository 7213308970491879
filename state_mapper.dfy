/** Conversions between state requests, entities and responses. */
module StateMapper {
  import opened Entities

  /** A new, not yet persisted state with the requested name, bound to `city`; the request's
      own city id is not consulted. */
  function ToEntity(request: StateRequest, city: City): (state: State)
    ensures state.id.None? && state.name == request.name && state.city == city
  {
    State(None, request.name, city)
  }

  /** The response body of a state, naming its city. */
  function ToDto(state: State): (dto: StateResponse)
    ensures dto.id == state.id && dto.name == state.name && dto.cityName == state.city.name
  {
    StateResponse(state.id, state.name, state.city.name)
  }

  /** `ToEntity` applied to every request with the same city, keeping order. */
  function ToEntityList(requests: seq<StateRequest>, city: City): (states: seq<State>)
    ensures |states| == |requests|
    ensures forall i :: 0 <= i < |requests| ==> states[i] == ToEntity(requests[i], city)
    ensures forall i :: 0 <= i < |states| ==> states[i].city == city
  {
    if requests == [] then [] else [ToEntity(requests[0], city)] + ToEntityList(requests[1..], city)
  }

  /** `ToDto` applied to every state, keeping order. */
  function ToDtoList(states: seq<State>): (dtos: seq<StateResponse>)
    ensures |dtos| == |states|
    ensures forall i :: 0 <= i < |states| ==> dtos[i] == ToDto(states[i])
  {
    if states == [] then [] else [ToDto(states[0])] + ToDtoList(states[1..])
  }

  /** A request turned into an entity has no id and the given city; its response carries the
      requested name and that city's name, whatever city id the request named. */
  lemma EntityRoundTrip(request: StateRequest, city: City)
    ensures ToEntity(request, city).id == None && ToEntity(request, city).city == city
    ensures ToDto(ToEntity(request, city)) == StateResponse(None, request.name, city.name)
  {
  }

  /** Two states have the same response exactly when they agree on id, name and city name;
      the city's id is not part of the response. */
  lemma ToDtoAgreement(a: State, b: State)
    ensures ToDto(a) == ToDto(b) <==> a.id == b.id && a.name == b.name && a.city.name == b.city.name
  {
  }

  /** Mapping a list commutes with concatenation: order is kept across any split. */
  lemma {:induction false} ToDtoListAppend(xs: seq<State>, ys: seq<State>)
    ensures ToDtoList(xs + ys) == ToDtoList(xs) + ToDtoList(ys)
  {
    if xs == [] {
      assert xs + ys == ys;
    } else {
      assert (xs + ys)[1..] == xs[1..] + ys;
      ToDtoListAppend(xs[1..], ys);
    }
  }
}
