# Session management and book use cases, modelled in Dafny

This project models the two pieces of logic in a Spring Boot backend that
carry decisions of their own:

- `SessionRestController`, the session API. `POST /login` authenticates the
  caller and binds the authentication and a user-agent string to the
  request's session. `GET /sessions` lists the caller's sessions, each under
  the SHA-256 hex digest of its key rather than the key itself.
  `DELETE /sessions/{id}` revokes one of the caller's other sessions.
  `POST /user` lets an administrator create a user.
- `BookUsercase`, the book use cases: `findById`, `findAll`, `create` with
  its blank-field check, and `update`. `update` checks the fields, looks the
  book up, runs the publisher-or-owning-author authorization check, and then
  replaces title and author in place.

Files:

- `wrappers.dfy`: `Option` (a Java reference that may be null) and `Result`
  (a call that returns or throws).
- `time.dfy`: the opaque clock values.
- `security.dfy`: `Authentication` (a name and its granted authorities) and
  the role names.
- `string_utils.dfy`: `StringUtils.hasText` as Spring 6 defines it: not null,
  and not blank under `Character.isWhitespace`.
- `session_store.dfy`: the session store as a class over
  `map<SessionKey, SessionRecord>`. The principal-name index is read off the
  records: a session is indexed under the name of the authentication in its
  security-context attribute. So index and records always agree.
- `users.dfy`: the user table as a class over `map<UserId, User>`.
- `session_controller.dfy`: the controller as a class over the session store
  and the user table.
- `books.dfy`: the book table and `BookUsercase` as classes over
  `map<BookId, Book>`.

The state-changing operations are methods. Their postconditions give the
whole new state of the store, or say that it is unchanged on every error
path. The pure parts are functions with lemmas about them: the user-agent
default, the projection into `SessionInfo`, the delete candidates and the
authorization predicate.

`GET /sessions` and `DELETE /sessions/{id}` also serve the request in a
session: `req.getSession()` is `getSession(true)`, so it sets the live
session's last access to now, or creates a new session (`Touched`). The
session filter saves that session when the response is committed, so
`findByPrincipalName` sees the store as the request found it.
`GetMySessions` therefore reads its snapshot before applying the save.
`DeleteSession` applies the save first, as the source orders the calls.
This changes no one's index (`TouchKeepsIndexKeys`), and the lookup there
depends only on the keys.

SHA-256 (FIPS 180-4, section 6.2, lowercase hex) is the controller constant
`sha256Hex: string -> string`, and the authentication manager is the
constant `authenticationManager: (string, string) -> Option<Authentication>`.
Both are uninterpreted. Nothing assumes SHA-256 is injective. The one
statement that needs injectivity, `MySessionsCount`, takes it as an explicit
hypothesis. Clock readings, the fresh session key the store generates and
the ids the database assigns are parameters. The caller's authentication,
which the source reads from `SecurityContextHolder`, is also a parameter.

Where the design description of the system and the code differ, the model
follows the code:

- The design describes `POST /books/{id}` as an update. The route calls
  `create` and ignores the path id, so it is not modelled as `update`.
- The design has passwords hashed at rest. `createUser` saves the request's
  password verbatim.
- `CreateUserRequest` carries `@NotBlank`/`@Min` annotations, but the
  request body is not annotated `@Valid`, so they are never checked. The
  model saves any strings.
- The design says every successful login adds one entry to the principal's
  index. `req.getSession(true)` reuses the request's session when it is
  live. So a login adds one entry to the principal's index unless the
  reused session already belonged to the principal, in which case it adds
  nothing (`LoginReusingOwnSession`). A login that creates a session adds
  its key (`LoginAddsOneSession`). A login that reuses a live session that
  is anonymous or bound to another user adds that key, and takes it out of
  the other user's index, whose count drops by one
  (`LoginTakesOverSession`).

## Model

| member | source | states |
|---|---|---|
| `StringUtils.HasText` | src/main/java/com/pcbaecker/config/security/SessionRestController.java:57 | a possibly-null string has text iff it is non-null and some character of it is not Java whitespace |
| `SessionStore.SessionRepository.FindByPrincipalName` | src/main/java/com/pcbaecker/config/security/SessionRestController.java:66 | the snapshot holds exactly the stored entries whose principal is the given name, with their records unchanged |
| `SessionStore.SessionRepository.GetSession` | src/main/java/com/pcbaecker/config/security/SessionRestController.java:55 | `getSession(true)` returns the requested session if it is live, otherwise the fresh key, and the store becomes `Touched` |
| `SessionStore.Touched` | src/main/java/com/pcbaecker/config/security/SessionRestController.java:55 | after `getSession(true)` exactly the request's session is added or changed: a live one keeps its record except that its last access is now; otherwise a new attribute-less session is created and accessed now |
| `SessionStore.TouchKeepsIndexKeys` | src/main/java/com/pcbaecker/config/security/SessionRestController.java:65 | serving a request in a session leaves every principal's index with the same keys and the same count |
| `SessionStore.SessionRepository.SetSecurityContext` | src/main/java/com/pcbaecker/config/security/SessionRestController.java:56 | only that session's security-context attribute changes |
| `SessionStore.SessionRepository.SetUserAgent` | src/main/java/com/pcbaecker/config/security/SessionRestController.java:58 | only that session's user-agent attribute changes |
| `SessionStore.SessionRepository.DeleteById` | src/main/java/com/pcbaecker/config/security/SessionRestController.java:88 | exactly that key leaves the store |
| `SessionStore.ByPrincipal` | src/main/java/com/pcbaecker/config/security/SessionRestController.java:66 | the principal-name index read off the records: exactly the stored entries whose security context names the principal, with their records |
| `SessionStore.DeleteByIdIndex` | src/main/java/com/pcbaecker/config/security/SessionRestController.java:88 | after a delete, every principal's index is the old index without the deleted key: the deleted session is never listed again, its owner's list shrinks by one, and other principals' lists are unchanged |
| `SessionStore.PutIndex` | src/main/java/com/pcbaecker/config/security/SessionRestController.java:55-58 | writing a session record adds the key to its principal's index and removes it from every other principal's index |
| `SessionController.UserAgentOf` | src/main/java/com/pcbaecker/config/security/SessionRestController.java:57 | the recorded user agent always has text: it is the header when the header has text, otherwise "Unknown" |
| `SessionController.LoginAddsOneSession` | src/main/java/com/pcbaecker/config/security/SessionRestController.java:50-59 | a login that creates a new session adds exactly one entry (the new key) to the principal's index, so the count grows by one; other principals' sessions are unchanged |
| `SessionController.LoginReusingOwnSession` | src/main/java/com/pcbaecker/config/security/SessionRestController.java:55-58 | a login on a live session the principal already owns reuses it: the principal's index keeps the same keys and the same count |
| `SessionController.LoginTakesOverSession` | src/main/java/com/pcbaecker/config/security/SessionRestController.java:55-58 | a login on a live session the principal does not own (anonymous or another user's) adds that key to the principal's index, whose count grows by one; the key leaves every other index, so a previous owner's count drops by one |
| `SessionController.LoginKeepsAgentsRecorded` | src/main/java/com/pcbaecker/config/security/SessionRestController.java:55-58 | every login, fresh or reusing a session, keeps the invariant that each authenticated session has a user agent with text |
| `SessionController.TouchKeepsAgentsRecorded` | src/main/java/com/pcbaecker/config/security/SessionRestController.java:65 | serving a request in a session keeps the invariant that each authenticated session has a user agent with text |
| `SessionController.MySessions` | src/main/java/com/pcbaecker/config/security/SessionRestController.java:66-72 | every session in the snapshot has its entry in the result set, and every entry in the set is the entry of some session of the snapshot; an entry's id is the hash of the key, its user agent and timestamps are the record's, and `isCurrent` holds iff the key is the caller's own |
| `SessionController.SessionInfoHidesKey` | src/main/java/com/pcbaecker/config/security/SessionRestController.java:67-71 | the raw key enters an entry only through its hash and its comparison with the current key: two non-current keys with equal hashes give equal entries |
| `SessionController.AtMostOneCurrent` | src/main/java/com/pcbaecker/config/security/SessionRestController.java:71 | at most one listed entry is current, and a current entry exists iff the caller's own session is among the caller's sessions |
| `SessionController.MySessionsCount` | src/main/java/com/pcbaecker/config/security/SessionRestController.java:66-72 | the set has at most one entry per session, and exactly one per session when SHA-256 does not collide on the caller's keys (a stated hypothesis) |
| `SessionController.ListedAgentsHaveText` | src/test/java/com/pcbaecker/integration/SessionIT.java:156 | when every authenticated session has a user agent with text, every listed entry's user agent has text |
| `SessionController.FindFirstMatching` | src/main/java/com/pcbaecker/config/security/SessionRestController.java:83-84 | the search returns a key of the snapshot whose hash is `id`, and returns none only when no key of the snapshot hashes to `id` |
| `SessionController.SessionRestController.AuthenticateUser` | src/main/java/com/pcbaecker/config/security/SessionRestController.java:50-59 | when authentication fails, the call throws and neither the security context nor the store changes; otherwise the context holds the authentication and the requested-or-new session carries it and the defaulted user agent; the invariant is kept |
| `SessionController.SessionRestController.GetMySessions` | src/main/java/com/pcbaecker/config/security/SessionRestController.java:63-74 | 200 with the projection of the caller's sessions as the request found them, `isCurrent` marking the request's session; every listed user agent has text; afterwards the store is `Touched` and the invariant is kept |
| `SessionController.SessionRestController.DeleteSession` | src/main/java/com/pcbaecker/config/security/SessionRestController.java:77-90 | the request's session is touched or created first; then 400 when `id` is its hash, 404 when none of the caller's sessions hashes to `id`, both leaving the store `Touched`; otherwise 200, and the store is the touched store without exactly one of the caller's sessions that hashes to `id`; the caller's count drops by one, other principals' indexes are as after the touch, and the request's session always survives |
| `SessionController.SessionRestController.RevokeSession` | src/main/java/com/pcbaecker/config/security/SessionRestController.java:80-89 | once the request's session is known: 400 with the store unchanged when `id` is its hash; 404 with the store unchanged when none of the caller's sessions hashes to `id`; otherwise 200, exactly one matching session is removed, the caller's count drops by one and other principals' sessions are untouched |
| `SessionController.SessionRestController.CreateUser` | src/main/java/com/pcbaecker/config/security/SessionRestController.java:92-105 | without ROLE_ADMIN: 403 and nothing saved; with it: 201 and one new user whose username and password are the request's, verbatim |
| `Users.UserRepository.Save` | src/main/java/com/pcbaecker/config/security/SessionRestController.java:101 | the row is stored under its id and returned; every row stays stored under its own id |
| `Security.HasRole` | src/main/java/com/pcbaecker/config/security/SessionRestController.java:92 | the definition of the `@Secured` gate, which `CreateUser`'s contract and `IsAuthorizedIff` use: it passes iff some granted authority equals the role |
| `Books.FieldsHaveText` | src/main/java/com/pcbaecker/domain/books/BookUsercase.java:24 | the blank-field check of create and update (also line 39) passes iff title and author are both non-null and each has a non-whitespace character |
| `Books.AnyAuthorityGrants` | src/main/java/com/pcbaecker/domain/books/BookUsercase.java:48-50 | the `anyMatch` holds iff some authority is ROLE_PUBLISHER, or is ROLE_AUTHOR while the stored author equals the caller's name |
| `Books.IsAuthorized` | src/main/java/com/pcbaecker/domain/books/BookUsercase.java:48-50 | only publishers and authors are ever authorized, and a publisher always is |
| `Books.AnyAuthorityGrantsIff` | src/main/java/com/pcbaecker/domain/books/BookUsercase.java:48-50 | the `anyMatch` over the authorities holds iff ROLE_PUBLISHER is among them, or ROLE_AUTHOR is and the stored author is the caller's name |
| `Books.IsAuthorizedIff` | src/main/java/com/pcbaecker/domain/books/BookUsercase.java:48-50 | update is authorized iff the caller is a publisher, or an author whose name is the stored (pre-update) author of the book |
| `Books.BookRepository.FindById` | src/main/java/com/pcbaecker/domain/books/BookUsercase.java:20 | the stored book for a present id, none for an absent one |
| `Books.BookRepository.Save` | src/main/java/com/pcbaecker/domain/books/BookUsercase.java:58 | the book is stored under its id and returned; every book stays stored under its own id |
| `Books.BookUsercase.FindById` | src/main/java/com/pcbaecker/domain/books/BookUsercase.java:19-21 | a book is returned iff the id is present, and it is the stored one |
| `Books.BookUsercase.FindAll` | src/main/java/com/pcbaecker/domain/books/BookUsercase.java:63-65 | the result holds every stored book and nothing else |
| `Books.BookUsercase.Create` | src/main/java/com/pcbaecker/domain/books/BookUsercase.java:23-36 | a blank or null title or author throws IllegalArgumentException and nothing is saved; otherwise exactly one new book is added with title and author verbatim, and every existing book is unchanged |
| `Books.BookUsercase.Update` | src/main/java/com/pcbaecker/domain/books/BookUsercase.java:38-61 | blank fields throw before the lookup, even for an absent id; an absent id throws "Book not found"; an unauthorized caller throws and nothing changes; otherwise only that book changes: title and author replaced, id and createdAt kept, updatedAt set |

## Left out

- SHA-256 and `DigestUtils`: the hash is an uninterpreted constant function. Its internals and its collision resistance are not modelled.
- Authentication and passwords: the delegating password encoder, `DaoAuthenticationProvider` and `CustomUserDetailsManager` are summed up by the uninterpreted `authenticationManager`. How its exception becomes an HTTP status is up to the filter chain, which is not modelled.
- The filter chain, `@Secured` and `@UserHasRolePublisher`: the caller's name and authorities are explicit parameters. The admin gate of `createUser` is a check at the start of `CreateUser`.
- Spring Session internals: TTL expiry, the maintenance of the Redis principal index, and the index keys left behind after logout are library behaviour. The index is read off the records, so a stale index entry cannot arise in the model. Key generation is random, so the fresh key is a parameter.
- Logout (SecurityConfig.java:44-52): the logout handlers invalidate the current session (`invalidateHttpSession(true)`) before the success handler runs. The success handler's `request.getSession()` then opens a new session, and its `deleteById` acts on that new key, not on the one just invalidated. The model does not include logout: the invalidation, the new session (which may be saved again when the request ends; this is an unconfirmed hypothesis for the keys left behind after logout) and the cookie clearing are framework behaviour.
- `BookRestController`: a thin HTTP mapping. Its `update` route calls `create` and ignores the path id.
- A null book id: Spring Data rejects it in `findById`, and the model's ids are never null.
- A stored book with a null author: the authorization check would throw a NullPointerException. Book authors in the model are always strings.
- `User.java` and `Book.java` are not part of this model. Their fields come from the builder calls and constructors that use them. The model assumes that roles the user builder leaves unset are an empty list; if the builder has no default for them, the source's saved user carries a null role list instead. Whether the database enforces unique usernames is not modelled.
- Timestamps are opaque integers. The range of `Instant.toEpochMilli` is not modelled.
- Strings are sequences of Unicode scalar values, where Java uses UTF-16 code units.
- HTTP and JSON serialisation, the JPA repository interfaces (modelled as maps), Testcontainers, `StartApplication` and the test harness.
