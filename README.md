# City and state rule engines, modelled in Dafny

This project models the rule layer of a small CRUD backend that manages cities and the
states that belong to them. It covers:

- the two services, `CityService` and `StateService`, with their list, insert, update and
  delete operations;
- the mappers between requests, entities and responses;
- the exception handler that turns each error kind into an HTTP error response.

The rules are these:

- A city name is unique ignoring case across all cities.
- A state name is unique ignoring case within its city, that is, as a (name, city id) pair.
- Insert and update check the name first, then look up ids, and fail with `AlreadyExist`
  or `NotFound`.
- Deletes only look up the id. A city delete can also be refused by the foreign key while
  a state still refers to the city.
- A failed write changes nothing.

## How the model is built

- `Persistence` holds the database the two repositories share. `Database` is a class with
  `cities: map<int, string>`, `states: map<int, StateRow>` (a name and the city's id) and
  one identity counter per table. Its methods are the repository writes (`save`,
  `deleteById`) and the `findAll` read. `Db` is a snapshot of its contents. The lookups are
  functions of that snapshot: the built-in `findById`, and the two derived queries
  `existsByNameIgnoreCase` and `existsByNameIgnoreCaseAndCity_Id`.
- `CityService` and `StateService` each hold a class of the same name that keeps a
  `const db: Database`, which both services share. Each write method does the source's
  checks and repository calls in the source's order. Its contract makes it equal to a
  *step function* `(Result, Db)` of the old snapshot.
- Each step function's `ensures` gives the rule for one call: which error comes out under
  which condition, and the exact new tables on success. Separate lemmas prove that every
  step keeps the uniqueness rules and referential integrity (`Consistent`). Other lemmas
  link several steps.
- Exceptions become `Result<T> = Ok(value) | Err(error)`, with error kinds `NotFound`,
  `AlreadyExist` and `DataIntegrityViolation`, each carrying the source's message text.
- A blocked city delete is an extra result, not a precondition. `Database.DeleteCityById`
  reports that the foreign key refused the delete. `CityService.DeleteById` then returns
  `Err(DataIntegrityViolation(..))` and leaves both tables unchanged, since the
  transaction rolls back. The handler maps this error to status 400.
- Ignore-case comparison is `Text.Fold`, which upper-cases ASCII letters. The derived
  `IgnoreCase` queries likewise compare the upper-cased column with the upper-cased
  argument.
- Entity ids are `Option<int>`: `None` until the database assigns one.
- The order of `findAll` is left open. `GetAll` promises that its responses are the
  mapping of *some* listing of the table that holds every row exactly once.
- Clock, network and framework behaviour are not part of the model. The only external
  input is the database's text for a foreign-key violation, given when the `Database` is
  constructed.

Two details follow the code exactly:

- The blocked delete is answered with status 400, which is what the handler returns. The
  500 named by the handler's annotation is never returned.
- The detail messages are the code's own: `"cityId: {}" + id` for a missing city on
  delete, and `"stateId: " + cityId` for a missing city on state insert.

## Model

| member | source | states |
|---|---|---|
| Text.Fold | src/main/java/com/mavidev/project/repository/CityRepository.java:9 | the ignore-case fold keeps the length and upper-cases each character on its own |
| Text.FoldEqualIff | src/main/java/com/mavidev/project/repository/StateRepository.java:9 | two names fold to the same string exactly when they are equal ignoring case, character by character (both directions) |
| Text.FoldIdempotent | src/main/java/com/mavidev/project/repository/CityRepository.java:9 | folding a folded name changes nothing |
| Exceptions.Handle | src/main/java/com/mavidev/project/exception/CustomExceptionHandler.java:15-36 | each error kind maps to one response whose detail list is exactly the error's message; the status is 404 for NotFound and 400 for AlreadyExist and for a data-integrity violation |
| Exceptions.TitleNamesKind | src/main/java/com/mavidev/project/exception/CustomExceptionHandler.java:19-34 | the title is "Not Found!", "Already Exist!" or the city-in-use text exactly when the error is of that kind |
| Exceptions.HandleInjective | src/main/java/com/mavidev/project/exception/CustomExceptionHandler.java:15-36 | two errors give the same response exactly when they are the same error, so the response loses neither kind nor message |
| Exceptions.AnnotatedStatusNeverReturned | src/main/java/com/mavidev/project/exception/CustomExceptionHandler.java:29-36 | no error yields status 500, although the data-integrity handler's annotation names 500 |
| CityMapper.ToEntity | src/main/java/com/mavidev/project/mapper/CityMapper.java:11-15 | a new city has no id and the requested name; `EntityRoundTrip` gives its response |
| CityMapper.ToDto | src/main/java/com/mavidev/project/mapper/CityMapper.java:17-22 | the response copies the city's id and name; `ToDtoInjective` shows it loses nothing |
| CityMapper.ToEntityList | src/main/java/com/mavidev/project/mapper/CityMapper.java:24-26 | the list keeps length and order: element i is `ToEntity` of request i |
| CityMapper.ToDtoList | src/main/java/com/mavidev/project/mapper/CityMapper.java:28-30 | the list keeps length and order: element i is `ToDto` of city i |
| CityMapper.EntityRoundTrip | src/main/java/com/mavidev/project/mapper/CityMapper.java:11-22 | a request turned into an entity has no id, and its response is `{id: null, name: request name}` |
| CityMapper.ToDtoInjective | src/main/java/com/mavidev/project/mapper/CityMapper.java:17-22 | a city response copies id and name exactly: two cities have the same response exactly when they are equal |
| CityMapper.ToDtoListAppend | src/main/java/com/mavidev/project/mapper/CityMapper.java:28-30 | mapping a concatenation gives the concatenation of the mapped lists |
| StateMapper.ToEntity | src/main/java/com/mavidev/project/mapper/StateMapper.java:12-17 | a new state has no id, the requested name and the given city; `EntityRoundTrip` gives its response |
| StateMapper.ToDto | src/main/java/com/mavidev/project/mapper/StateMapper.java:19-25 | the response copies the state's id and name and its city's name; `ToDtoAgreement` says when two responses agree |
| StateMapper.ToEntityList | src/main/java/com/mavidev/project/mapper/StateMapper.java:27-29 | the list keeps length and order, element i is `ToEntity` of request i, and every element's city is the given city |
| StateMapper.ToDtoList | src/main/java/com/mavidev/project/mapper/StateMapper.java:31-33 | the list keeps length and order: element i is `ToDto` of state i |
| StateMapper.EntityRoundTrip | src/main/java/com/mavidev/project/mapper/StateMapper.java:12-25 | a request turned into an entity has no id and the given city, whatever city id the request names; its response carries the request's name and that city's name |
| StateMapper.ToDtoAgreement | src/main/java/com/mavidev/project/mapper/StateMapper.java:19-25 | two states have the same response exactly when id, name and the city's name agree; the city's id is not in the response |
| StateMapper.ToDtoListAppend | src/main/java/com/mavidev/project/mapper/StateMapper.java:31-33 | mapping a concatenation gives the concatenation of the mapped lists |
| Persistence.CityNameTaken | src/main/java/com/mavidev/project/repository/CityRepository.java:9 | `existsByNameIgnoreCase` holds exactly when some city's name equals the argument ignoring case, character by character |
| Persistence.StateNameTaken | src/main/java/com/mavidev/project/repository/StateRepository.java:9 | `existsByNameIgnoreCaseAndCity_Id` holds exactly when some state of that city has a name equal to the argument ignoring case, character by character |
| Persistence.FindCity | src/main/java/com/mavidev/project/service/CityService.java:64 | `findById` on the city table, as called at CityService.java:64 and :80 and StateService.java:50 and :70: the city with that id and its stored name when the id is in the table, otherwise none |
| Persistence.FindState | src/main/java/com/mavidev/project/service/StateService.java:69 | `findById` on the state table, as called at StateService.java:69 and :87: the state with that id and its stored name when the id is in the table, otherwise none; its city is exactly what `FindCity` gives for the row's city id |
| Persistence.CityReferenced | src/main/java/com/mavidev/project/service/CityService.java:81 | the foreign-key rule behind the refused delete: some state row refers to the city, that is, its id is among the rows' city ids |
| Persistence.Database.FindAllCities | src/main/java/com/mavidev/project/service/CityService.java:32 | `findAll` returns every city of the table exactly once, with its stored name, as many entries as rows |
| Persistence.Database.FindAllStates | src/main/java/com/mavidev/project/service/StateService.java:35 | `findAll` returns every state exactly once, each with its stored name and its city resolved through the foreign key |
| Persistence.Database.SaveCity | src/main/java/com/mavidev/project/service/CityService.java:46 | `save` of a new city adds it under the next identity value; `save` of an existing one overwrites its name; the database stays well-formed |
| Persistence.Database.DeleteCityById | src/main/java/com/mavidev/project/service/CityService.java:81 | `deleteById` removes the city unless a state refers to it, in which case nothing changes and the refusal is reported |
| Persistence.Database.SaveState | src/main/java/com/mavidev/project/service/StateService.java:51 | `save` of a state stores its name and its city's id, under the next identity value when it is new |
| Persistence.Database.DeleteStateById | src/main/java/com/mavidev/project/service/StateService.java:88 | `deleteById` removes exactly that state row |
| CityService.InsertStep | src/main/java/com/mavidev/project/service/CityService.java:43-50 | insert fails with AlreadyExist exactly when some city's name equals the request name ignoring case, and then changes nothing; otherwise it adds exactly one city with that name under an id not in use, returns that id and name, and leaves the states alone |
| CityService.UpdateStep | src/main/java/com/mavidev/project/service/CityService.java:61-69 | a taken name gives AlreadyExist whether or not the id exists; a free name with an unknown id gives NotFound; in both cases nothing changes. Otherwise only city `id` is renamed, keeping its id |
| CityService.DeleteStep | src/main/java/com/mavidev/project/service/CityService.java:78-83 | an unknown id gives NotFound; a city that a state refers to gives the data-integrity error; in both cases nothing changes. Otherwise exactly that city is removed, and the response is the city as it was before |
| CityService.InsertKeepsRules | src/main/java/com/mavidev/project/service/CityService.java:45-47 | insert keeps every city name unique ignoring case and keeps referential integrity |
| CityService.UpdateKeepsRules | src/main/java/com/mavidev/project/service/CityService.java:63-66 | update keeps every city name unique ignoring case and keeps referential integrity |
| CityService.DeleteKeepsRules | src/main/java/com/mavidev/project/service/CityService.java:78-83 | delete keeps both uniqueness rules, and no state is left pointing at a missing city |
| CityService.CaseVariantRefused | src/main/java/com/mavidev/project/service/CityService.java:45-49 | after one name is inserted, a name that differs from it only in case is refused with AlreadyExist and changes nothing |
| CityService.InsertedNameIsUnique | src/main/java/com/mavidev/project/service/CityService.java:45-47 | after a successful insert, the new city is the one and only city whose name matches ignoring case |
| CityService.RenameToOwnNameRefused | src/main/java/com/mavidev/project/service/CityService.java:63-68 | renaming a city to its own name, in any case, fails with AlreadyExist, because the check does not exclude the city itself |
| CityService.CityService.GetAll | src/main/java/com/mavidev/project/service/CityService.java:30-34 | the responses are the mapping of a listing that holds every city exactly once, one response per city |
| CityService.CityService.Insert | src/main/java/com/mavidev/project/service/CityService.java:43-50 | performs exactly `InsertStep` on the shared database and keeps it well-formed |
| CityService.CityService.Update | src/main/java/com/mavidev/project/service/CityService.java:61-69 | performs exactly `UpdateStep`: name check, then id lookup, then rename and save |
| CityService.CityService.DeleteById | src/main/java/com/mavidev/project/service/CityService.java:78-83 | performs exactly `DeleteStep`: id lookup, then the delete that the database may refuse |
| StateService.InsertStep | src/main/java/com/mavidev/project/service/StateService.java:47-55 | a taken (name ignoring case, city id) pair gives AlreadyExist, and the city is not looked up; a free pair with an unknown city gives NotFound, and nothing is stored; otherwise exactly one state is added under an id not in use, bound to that city, and the response names the city |
| StateService.UpdateStep | src/main/java/com/mavidev/project/service/StateService.java:66-76 | the pair check comes first, then the state lookup, then the city lookup, which fixes the error when several apply; every failure changes nothing. On success only state `id` changes, to the new name and city, keeping its id |
| StateService.DeleteStep | src/main/java/com/mavidev/project/service/StateService.java:85-90 | an unknown id gives NotFound and changes nothing; otherwise exactly that state is removed, and the response is its value from before, with its city's name |
| StateService.InsertKeepsRules | src/main/java/com/mavidev/project/service/StateService.java:49-52 | insert keeps (name ignoring case, city id) unique among states, and every state's city id resolves |
| StateService.UpdateKeepsRules | src/main/java/com/mavidev/project/service/StateService.java:68-73 | update keeps (name ignoring case, city id) unique among states, and every state's city id resolves |
| StateService.DeleteKeepsRules | src/main/java/com/mavidev/project/service/StateService.java:85-90 | delete keeps both rules and referential integrity |
| StateService.UpdateThenFind | src/main/java/com/mavidev/project/service/StateService.java:66-76 | updating an existing state to an unused pair with an existing city succeeds; a later lookup shows the new name and the new city, and its response equals the one returned |
| StateService.RenameToOwnNameRefused | src/main/java/com/mavidev/project/service/StateService.java:68-75 | renaming a state to its own name, in any case, within its own city fails with AlreadyExist |
| StateService.StateService.GetAll | src/main/java/com/mavidev/project/service/StateService.java:33-37 | the responses are the mapping of a listing that holds every state exactly once, each with its city, one response per state |
| StateService.StateService.Insert | src/main/java/com/mavidev/project/service/StateService.java:47-55 | performs exactly `InsertStep`: pair check, then city lookup, then save |
| StateService.StateService.Update | src/main/java/com/mavidev/project/service/StateService.java:66-76 | performs exactly `UpdateStep`: the setters run only after both lookups succeed |
| StateService.StateService.DeleteById | src/main/java/com/mavidev/project/service/StateService.java:85-90 | performs exactly `DeleteStep` |
| Scenarios.DeleteBlockedWhileReferenced | src/main/java/com/mavidev/project/service/CityService.java:78-83 | deleting a city that some state refers to fails with the data-integrity error, and both tables stay as they were; when that state is the city's last one, deleting it first lets the city delete go through |
| Scenarios.CityRenameShowsInStates | src/main/java/com/mavidev/project/mapper/StateMapper.java:19-25 | a state's response names its city as the city is at read time: after a rename, reading the state with `findById` and mapping it gives the new city name |
| Scenarios.SpringfieldWalkthrough | src/main/java/com/mavidev/project/service/CityService.java:43-83 | the city steps are those of CityService.java:43-83 and the state steps those of StateService.java:47-90; starting from an empty database: insert "Springfield" (id 1), "springfield" is refused, state "IL" of city 1 gets id 1 and the city's name, the city delete is refused, the state delete succeeds, then the city delete succeeds and both tables are empty |
| Scenarios.RunWalkthrough | src/main/java/com/mavidev/project/service/CityService.java:43-83 | the same walkthrough through the two service objects on a single `Database` they share; each of the six calls returns what the walkthrough predicts |

## Left out

- HTTP controllers and the application bootstrap: routing only. Their null checks can
  never fire, because the services never return null.
- Bean validation of request bodies (`@NotNull`, `@NotBlank`, `@NotEmpty`) runs before the
  service is called. The model adds no precondition for it, so every rule is proved for
  every name, blank ones included.
- Unicode case mapping: `Text.Fold` upper-cases ASCII letters only. What the database's
  `upper` does beyond ASCII is not modelled.
- 64-bit ids: ids are unbounded integers, so overflow of a `Long` and of the identity
  sequence is not modelled. A null `cityId` in a state request is not modelled either.
- Identity values: the model hands them out as 1, 2, 3, … per table. The per-operation
  rules use only "an id not yet in the table". Only the walkthrough relies on the exact
  values.
- The order in which `findAll` lists rows depends on the database. The model leaves it
  open and promises only that the list holds every row exactly once.
- The text of a foreign-key violation comes from the database driver. It is a constant
  given to the `Database` constructor, not a modelled string.
- Transactions, concurrency and the race between the name check and the save are not
  modelled: each operation runs alone and to completion. Logging is also left out.
- JPA managed-entity behaviour (dirty checking, flush timing, cascades) is not modelled.
  A fetched entity changes the table only through `save`, and a refused city delete
  changes nothing. The `City` and `State` entities are immutable records (`Entities.City`,
  `Entities.State`). The source's setters and JPA's managed identity of a loaded entity are
  not modelled: a change is a copy made with `.(name := ..)` and then saved.
- Test files: cited as evidence for the rules, not modelled.
