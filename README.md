# User-Service account store, in Dafny

A model of the account service of the User-Service repository: a store of
user records keyed by a caller-supplied id, an upsert (`registerUser`), and a
three-step deletion (`deleteAccount`): check that the id exists, delete the
record, then publish a `user.deleted` event to the `user.exchange` exchange.
It also models the two HTTP endpoints that sit on top: how the register
request is built from the gateway's headers, and how a deletion outcome
becomes a status code (204, 404 or 500).

Layout: one module per package of the program, plus `Wrappers` for Java's
null, `Optional` and exception conventions and `Messaging` for the broker
client:

- `wrappers.dfy` — `Wrappers`: `Option` (a nullable reference), `Result` and
  `Outcome` (a call that returns or throws a `RuntimeException` with a message).
- `entity.dfy` — `Entity`: `UserEntity`, the stored record.
- `dto.dfy` — `Dto`: `UserRequestDto` and `UserResponseDto`.
- `persistence.dfy` — `Persistence`: the `UserRepository` class, a table
  `rows: map<string, UserEntity>` with exists, find, save and delete by id,
  and a ghost log of the calls made on it (what the unit tests verify
  with their mocks).
- `messaging.dfy` — `Messaging`: the `RabbitTemplate` class, whose `sent`
  sequence holds the messages the broker accepted, and the exchange and
  routing-key constants.
- `business.dfy` — `Business`: the `UserServiceImpl` class, whose methods
  `RegisterUser` and `DeleteAccount` follow the Java methods step by step,
  and the specification functions `Register` and `Delete` that their
  postconditions equal, with lemmas about them.
- `controller.dfy` — `Controller`: the endpoints as functions, Java's
  `String.contains` as `Contains`, and lemmas tying status codes to the
  service's outcomes.

A collaborator call that throws is modelled by a `Faults` value passed to
the service method: one optional message per call (`existsById`,
`findById`, `save`, `deleteById`, `convertAndSend`). The creation time the
store assigns on insert is the parameter `insertStamp`.

Facts about the code that shape the model:

- `UserRequestDto` has no roles field and `UserServiceImpl` implements no
  `getAllUsers`, so the model has neither roles nor a listing.
- The code never sets `createdAt`; the store assigns it on insert and keeps
  it on update.
- Both service methods are `@Transactional`, which rolls back on a
  `RuntimeException`. The model states only the order of effects as
  written, so after a publish failure the modelled table no longer holds
  the row.

## Model

| member | source | states |
|---|---|---|
| Persistence.Persisted | src/main/java/org/example/business/implementation/UserServiceImpl.java:49 | the row `save` writes is the entity handed to it except for `createdAt`, which keeps the stored value on update and is always set, so a well-formed table stays well-formed |
| Persistence.UserRepository.ExistsById | src/main/java/org/example/business/implementation/UserServiceImpl.java:29 | returns whether the key is in the table, or throws the injected failure; logs the call |
| Persistence.UserRepository.FindById | src/main/java/org/example/business/implementation/UserServiceImpl.java:32 | returns the row present under the key (empty when absent), or throws; logs the call |
| Persistence.UserRepository.Save | src/main/java/org/example/business/implementation/UserServiceImpl.java:49 | on success the table maps the entity's id to the persisted row and returns it; on a throw the table is unchanged; the call is logged either way |
| Persistence.UserRepository.DeleteById | src/main/java/org/example/business/implementation/UserServiceImpl.java:71 | on success the key is removed (a missing key is ignored); on a throw the table is unchanged; the call is logged |
| Messaging.RabbitTemplate.ConvertAndSend | src/main/java/org/example/business/implementation/UserServiceImpl.java:75 | appends exactly the one message (exchange, routing key, payload) when the broker accepts it, and nothing when it throws |
| Business.Register | src/main/java/org/example/business/implementation/UserServiceImpl.java:24-60 | upsert: succeeds exactly when no reached collaborator call throws, otherwise leaves the table unchanged; adds at most the request's key and leaves every other row untouched; the saved row has the request's id and exactly its four profile values (null included), keeps the old `createdAt` on update and gets the insert stamp on create; the returned view mirrors the saved row; a failure carries the throwing collaborator's own message unchanged; existence is checked first, nothing is deleted, and save is called exactly once with the request's values once the existence check and the load succeed; `findById` is called exactly when the existence check succeeds and the id is present |
| Business.Delete | src/main/java/org/example/business/implementation/UserServiceImpl.java:63-81 | NotFound exactly when the existence check succeeds and the id is absent, and then nothing changes and nothing is published; a store failure rethrows its own message, changes nothing and publishes nothing; the row is removed before publishing, so both success and PublishFailure leave it deleted; exactly one `("user.exchange", "user.deleted", userId)` event is appended, and only on success; no other row changes; deleteById is called only for a present id |
| Business.UserServiceImpl.RegisterUser | src/main/java/org/example/business/implementation/UserServiceImpl.java:24-60 | returns the result of `Register`, leaves the table as `Register` says and logs its calls; publishes nothing |
| Business.UserServiceImpl.DeleteAccount | src/main/java/org/example/business/implementation/UserServiceImpl.java:63-81 | returns the outcome of `Delete` and leaves the table, the broker's messages and the call log as `Delete` says |
| Business.RegisterIdempotent | src/main/java/org/example/business/implementation/UserServiceImpl.java:29-49 | registering the same request twice gives the same table and view as once, and the second call still saves once |
| Business.RegisterFullReplace | src/main/java/org/example/business/implementation/UserServiceImpl.java:32-36 | a second registration of the same id replaces all four profile fields with the new request's values, with no merge, and keeps the id and the first `createdAt` |
| Business.DeleteTwice | src/main/java/org/example/business/implementation/UserServiceImpl.java:66-76 | after a successful delete, deleting the same id again is NotFound, changes nothing, and the broker holds one deletion event only |
| Business.RegisterThenDelete | src/main/java/org/example/business/implementation/UserServiceImpl.java:24-81 | registering then deleting an id succeeds, leaves the original table without that key, and publishes exactly one deletion event for it |
| Business.Overwrite | src/main/java/org/example/business/implementation/UserServiceImpl.java:33-36 | the updated record keeps the loaded id and `createdAt` and holds exactly the request's four profile values |
| Business.Build | src/main/java/org/example/business/implementation/UserServiceImpl.java:40-46 | the new record has the request's id and four profile values and no creation time yet |
| Business.ToResponse | src/main/java/org/example/business/implementation/UserServiceImpl.java:52-59 | the view copies id, email, username, first and last name and `createdAt` of the saved record |
| Business.DeleteOutcome.Message | src/main/java/org/example/business/implementation/UserServiceImpl.java:66-80 | a missing account throws "User not found", a refused event "Failed to publish deletion event", a store failure its own message; of the two fixed outcomes only NotFound says "User not found" |
| Messaging.DeletionEvent | src/main/java/org/example/business/implementation/UserServiceImpl.java:75 | the event goes to exchange "user.exchange" under routing key "user.deleted" with the user id as payload |
| Controller.Contains | src/main/java/org/example/controller/UserController.java:65 | the empty part is contained in every message, and a contained part is no longer than the message |
| Controller.ContainsIffOccurs | src/main/java/org/example/controller/UserController.java:65 | the substring test holds exactly when the part occurs at some index of the message |
| Controller.MissingCharNotContained | src/main/java/org/example/controller/UserController.java:65 | a message lacking one character of the part does not contain it |
| Controller.RegisterRequest | src/main/java/org/example/controller/UserController.java:23-41 | the service request takes the id and the four profile values from the headers; the roles header and the optional body do not influence it |
| Controller.RegisterResponse | src/main/java/org/example/controller/UserController.java:43-44 | a successful registration is answered 200 with the service's view unchanged as body; an exception passes through |
| Controller.DeleteResponse | src/main/java/org/example/controller/UserController.java:60-69 | 204 exactly on success; 404 exactly when the exception message contains "not found" (case-sensitive); otherwise 500; no body |
| Controller.FixedMessagesStatus | src/main/java/org/example/controller/UserController.java:60-69 | the service's "User not found" maps to 404 and its "Failed to publish deletion event" maps to 500 |
| Controller.DeleteEndpointStatus | src/main/java/org/example/controller/UserController.java:60-69 | composed with `Delete`: 204 exactly when the account existed and both the delete and the publish succeeded; 404 for a missing account; 500 for a refused event; a failing existence check gives 404 or 500 by its own message |

## Left out

- Transactions: the `@Transactional` commit and rollback are not modelled. The state after an exception is the state the method's own effects leave, in the order they run.
- Listing and roles: `getAllUsers` has no implementation in `UserServiceImpl`, and the request type has no roles field. The roles header is accepted by `RegisterRequest` and dropped.
- The Keycloak listener that consumes deletion events is left out. It makes a single remote delete call and rethrows its failure, and the model has no logic to state about it.
- RabbitMQ configuration: exchange, queue and binding beans and topic routing are broker semantics; only the two name constants are used.
- JPA internals and the unused derived finders (`findByEmail`, `findByUsername`, `existsByEmail`). The store is a map with exists, find, save and delete.
- Clocks: `createdAt` comes from the `insertStamp` parameter, and `UserEntity.java` is not part of this model.
- Logging, header binding, Lombok builders, and Spring's handling of exceptions the controller does not catch.
- A null user id is not modelled: ids are non-null strings, because the headers are required and the store rejects a null key.
- Controller.DeleteResponse: collaborator exceptions always carry a non-null message. With a null message, the controller would throw a NullPointerException at the `contains` check instead of answering 404 or 500.
- Exceptions other than `RuntimeException` are not distinguished: a collaborator failure is its message. The cause of a publish failure is only logged, so `PublishFailure` carries no cause.
- Business.UserServiceImpl.RegisterUser: the loaded entity is a value, so the in-place setter updates on a managed entity are modelled as a new value handed to `save`. The model does not capture aliasing or flushing at commit.
- The `Optional.get()` failure on the update path cannot arise in the model, because the map always has a row for an id that `existsById` reported present.
