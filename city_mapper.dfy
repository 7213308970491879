/** Conversions between city requests, entities and responses. */
module CityMapper {
  import opened Entities

  /** A new, not yet persisted city carrying the requested name. */
  function ToEntity(request: CityRequest): (city: City)
    ensures city.id.None? && city.name == request.name
  {
    City(None, request.name)
  }

  /** The response body of a city. */
  function ToDto(city: City): (dto: CityResponse)
    ensures dto.id == city.id && dto.name == city.name
  {
    CityResponse(city.id, city.name)
  }

  /** `ToEntity` applied to every request, keeping order. */
  function ToEntityList(requests: seq<CityRequest>): (cities: seq<City>)
    ensures |cities| == |requests|
    ensures forall i :: 0 <= i < |requests| ==> cities[i] == ToEntity(requests[i])
  {
    if requests == [] then [] else [ToEntity(requests[0])] + ToEntityList(requests[1..])
  }

  /** `ToDto` applied to every city, keeping order. */
  function ToDtoList(cities: seq<City>): (dtos: seq<CityResponse>)
    ensures |dtos| == |cities|
    ensures forall i :: 0 <= i < |cities| ==> dtos[i] == ToDto(cities[i])
  {
    if cities == [] then [] else [ToDto(cities[0])] + ToDtoList(cities[1..])
  }

  /** A request turned into an entity has no id, and its response repeats the name. */
  lemma EntityRoundTrip(request: CityRequest)
    ensures ToEntity(request).id == None
    ensures ToDto(ToEntity(request)) == CityResponse(None, request.name)
  {
  }

  /** The response view of a city loses nothing: it determines the city. */
  lemma ToDtoInjective(a: City, b: City)
    ensures ToDto(a) == ToDto(b) <==> a == b
  {
  }

  /** Mapping a list commutes with concatenation: order is kept across any split. */
  lemma {:induction false} ToDtoListAppend(xs: seq<City>, ys: seq<City>)
    ensures ToDtoList(xs + ys) == ToDtoList(xs) + ToDtoList(ys)
  {
    if xs == [] {
      assert xs + ys == ys;
    } else {
      assert (xs + ys)[1..] == xs[1..] + ys;
      ToDtoListAppend(xs[1..], ys);
    }
  }
}
