# Page-creation endpoint: validation and store outcomes

This project models the `POST` handler of the page builder's API
(`app/api/route.ts`). A client sends a JSON body with a `slug`, a
`components` array of typed blocks (`ImageBlock`, `TextSection`, `Card`,
`CTA`, `StatsBox`, each with a `props` object) and optional `metadata`. The
handler runs a fixed sequence of checks: reserved slug, slug format,
components array, then the shape of every block. It then inserts the page into
a table that enforces unique slugs and answers with an envelope
`{ success, data?, error? }` and an HTTP status.

Files:

- `wrappers.dfy`: `Option`, where `None` stands for JavaScript's `undefined`.
- `json.dfy` (module `Json`): the values `JSON.parse` can produce. It also
  models the three pieces of JavaScript the validator relies on: property
  reads, `typeof` and truthiness.
- `validation.dfy` (module `Validation`): `VALID_COMPONENT_TYPES`, the
  reserved-slug list, `validateSlug` (the pattern `^[a-zA-Z0-9-_]+$` as a
  character class and a one-or-more matcher, plus the length bounds),
  ASCII `toLowerCase`, `validateComponent` with JavaScript semantics, and the
  `forEach` loop that collects failing indices (`CollectInvalid`, a `while`
  loop proved against the function `InvalidIndices`).
- `store.dfy` (module `Store`): the page table as a pure insert-if-absent
  function, `Insert`. It also holds the class `PageStore`, whose `Create`
  method updates the table in place and is proved against `Insert`.
- `handler.dfy` (module `PagesApi`): error codes and statuses, the envelope,
  the validation sequence `Validate`, the whole handler as a function
  `Respond` of the store state, and the imperative `Post` method proved
  equal to it.
- `handler_properties.dfy` (module `PagesApiProperties`): the promises of
  the endpoint. They are stated against independent definitions of an
  acceptable slug (`AcceptableSlug`) and a well-shaped block
  (`WellShapedBlock`).

Behaviour reproduced from the code:

- When the slug is missing or is not a string, `slug.toLowerCase()` at
  `app/api/route.ts:280` throws, and the outer catch (lines 366-383) answers
  `INTERNAL_ERROR` with status 500. A `null` body makes the destructuring
  throw, with the same result. The `INVALID_SLUG` branch at line 294, whose
  message reads 'Invalid or missing slug', was meant to catch a missing
  slug, but it is never reached for one; the model follows what runs.
- The reserved check runs before the format check and ignores case. `"API"`
  is therefore reserved, and so is `"favicon.ico"`, which the format check
  would refuse anyway.
- A `props` that is an array passes `typeof === 'object'`.
- A failure to reach the database is an input of the model (`outage`). It
  gives `DATABASE_ERROR` with status 500, and so does any other store
  failure except a slug uniqueness violation. A uniqueness violation gives
  `PAGE_EXISTS` with status 409.
- On success the handler answers 201 with `data`: `id`, `slug`, `url`
  (`"/" + slug`), `componentCount` and `metadata`. The documentation comment
  also lists a `filePath`, but the code does not return one, and the model
  follows the code.

## Model

| member | source | states |
|---|---|---|
| Json.TruthyObjectIsContainer | app/api/route.ts:74-75 | `x && typeof x === 'object'` holds exactly of arrays and objects |
| Validation.InSlugClass | app/api/route.ts:65 | a character is in `[a-zA-Z0-9-_]` iff it is an ASCII letter, a digit, `-` or `_` (the second `-` is literal) |
| Validation.MatchesOneOrMoreSlugClass | app/api/route.ts:65 | `^[a-zA-Z0-9-_]+$` matches iff the string is non-empty and every character is a slug character |
| Validation.ValidateSlug | app/api/route.ts:64-66 | `validateSlug`: the pattern test and the length bounds; an accepted slug has 1 to 100 characters (the full characterisation is `ValidateSlugIff`) |
| Validation.ValidateSlugIff | app/api/route.ts:64-66 | `validateSlug(s)` holds iff 1 <= length <= 100 and every character is a letter, digit, `-` or `_` |
| Validation.ToLower | app/api/route.ts:280 | lowercasing keeps the length, maps each ASCII capital to its small letter and leaves every other character alone |
| Validation.ReservedAreLowerCase | app/api/route.ts:279 | every reserved word is already in lower case |
| Validation.IsReserved | app/api/route.ts:279-280 | `RESERVED_SLUGS.includes(slug.toLowerCase())`; a reserved slug has 3 to 13 characters, the lengths of the reserved words (the full characterisation is `IsReservedIff`) |
| Validation.IsReservedIff | app/api/route.ts:279-280 | a slug is reserved iff it equals a reserved word up to the case of its letters |
| Validation.IsReservedCaseInsensitive | app/api/route.ts:279-280 | two slugs that differ only in letter case are reserved together |
| Validation.ValidateComponent | app/api/route.ts:68-77 | `validateComponent` with JavaScript's truthiness and `typeof`; a passing block is an object with `type` and `props` keys (the full characterisation is `ValidateComponentIff`) |
| Validation.ValidateComponentIff | app/api/route.ts:68-77 | `validateComponent(c)` holds iff `c` is an object whose `type` is a string among the five kinds and whose `props` is an object or an array |
| Validation.InvalidIndices | app/api/route.ts:299-307 | the indices the `forEach` pushes, in visiting order; there are at most as many as blocks and each is a block index (the full characterisation is `InvalidIndicesSpec`) |
| Validation.InvalidIndicesSpec | app/api/route.ts:299-307 | the indices the loop pushes are strictly increasing, and they are exactly the indices of the blocks failing `validateComponent` |
| Validation.InvalidIndicesEmptyIff | app/api/route.ts:299-310 | no index is pushed iff every block passes `validateComponent` |
| Validation.CollectInvalid | app/api/route.ts:299-307 | the `forEach` loop returns exactly the failing indices, ascending and each once |
| Store.Insert | app/api/route.ts:314-322 | the insert creates a page iff the store is up and the slug is absent, reports a uniqueness violation iff the store is up and the slug is present, and leaves the table unchanged on every failure |
| Store.InsertPreservesWellFormed | app/api/route.ts:314-322 | an insert keeps every existing page, gives the new page an id no other page has, and keeps every page under its own slug |
| Store.PageStore.constructor | app/api/route.ts:32 | the database client over an empty page table is well formed, and its id counter starts at 0 |
| Store.PageStore.Create | app/api/route.ts:316-322 | `prisma.page.create` on the in-place table has the outcome and new state of `Insert` and keeps the table well formed |
| PagesApi.CodeName | app/api/route.ts:263-376 | the wire codes of the eight errors, each a non-empty string of capitals and underscores |
| PagesApi.StatusOf | app/api/route.ts:263-382 | the statuses passed to `createResponse`: 409 exactly for `PAGE_EXISTS`, 500 exactly for `DATABASE_ERROR` and `INTERNAL_ERROR`, 400 for every validation error |
| PagesApi.CreateResponse | app/api/route.ts:79-99 | the envelope keeps `success` and the status, and holds `data` and `error` exactly when they are given |
| PagesApi.ErrorResponse | app/api/route.ts:263-382 | every error answer is unsuccessful, has no `data`, carries the error and its code's status, never 201 |
| PagesApi.Validate | app/api/route.ts:275-310 | the check sequence never yields a store error; its only 500 is `INTERNAL_ERROR` for a missing or non-string slug; an accepted body has a non-reserved, well-formed slug and a non-empty array of blocks that all pass `validateComponent`, and the accepted page carries the body's own slug, components and metadata |
| PagesApi.Respond | app/api/route.ts:257-389 | the handler's answer and the store after it: success exactly when the status is 201, and only for an accepted body whose slug the store then holds; every error leaves the store as it was |
| PagesApi.Post | app/api/route.ts:257-389 | the step-by-step handler returns the response and leaves the store state that `Respond` specifies |
| PagesApiProperties.SlugChecksIff | app/api/route.ts:279-295 | a present slug passes both the reserved check and the format check iff it is acceptable: 1 to 100 slug characters and no reserved word in any case |
| PagesApiProperties.BlocksIff | app/api/route.ts:299-310 | no block is reported iff every block is an object with a known `type` string and an object or array `props` |
| PagesApiProperties.ValidateAcceptIff | app/api/route.ts:275-310 | a body passes every check iff its slug is acceptable and its components form a non-empty array of well-shaped blocks; the accepted page carries the body's own slug, components and metadata |
| PagesApiProperties.ValidateErrorCodes | app/api/route.ts:260-298 | `INVALID_JSON` iff the body does not parse; `INTERNAL_ERROR` iff the slug is missing or not a string; `RESERVED_SLUG` iff the slug is a reserved word in some case; `INVALID_SLUG` iff the slug is not reserved and fails the format; `INVALID_COMPONENTS` iff the slug is acceptable and the components are missing, not an array or empty |
| PagesApiProperties.StructureErrorReportsEveryBadBlock | app/api/route.ts:299-310 | once the earlier checks pass, the request is refused iff some block fails; the error is then `INVALID_COMPONENT_STRUCTURE` and lists exactly the failing indices, ascending and each once |
| PagesApiProperties.ReservedBeatsFormat | app/api/route.ts:279-291 | a reserved slug is refused with `RESERVED_SLUG`, status 400 and the reserved list, whatever else the body holds |
| PagesApiProperties.UpperCaseApiIsReserved | app/api/route.ts:279-280 | `"API"` is reserved |
| PagesApiProperties.FaviconIsReservedAndMalformed | app/api/route.ts:279-295 | `"favicon.ico"` is reserved although `validateSlug` would also refuse it, and a body with that slug is answered `RESERVED_SLUG` |
| PagesApiProperties.RespondEnvelope | app/api/route.ts:85-90 | the envelope has `data` exactly on success and `error` exactly on failure; success is 201 and every error carries its code's status (400, 409 or 500) |
| PagesApiProperties.RespondWritesOnlyOnSuccess | app/api/route.ts:314-365 | the answer is a success iff every check passes, the store is up and the slug is new; every error leaves the store unchanged |
| PagesApiProperties.RespondSuccess | app/api/route.ts:314-339 | a success is 201 with `url` "/" + slug and `componentCount` equal to the number of blocks; the store then holds the page under its slug and keeps every earlier page |
| PagesApiProperties.AcceptedFreshSlug | app/api/route.ts:314-339 | a valid request for a new slug is answered 201 with the id the store issued, the slug, `url` "/" + slug, the block count and the request's metadata, and the page is added under its slug as sent |
| PagesApiProperties.CodeNameInjective | app/api/route.ts:263-376 | no two errors share a wire code |
| PagesApiProperties.RespondStoreFailures | app/api/route.ts:340-365 | any other store failure gives `DATABASE_ERROR` with status 500; an existing slug gives `PAGE_EXISTS` with status 409 and the slug; neither writes |
| PagesApiProperties.ResubmitGivesPageExists | app/api/route.ts:340-353 | sending the same valid request twice creates the page once; the second attempt gets `PAGE_EXISTS` with status 409 and changes nothing |
| PagesApiProperties.MissingSlugIsInternalError | app/api/route.ts:366-383 | a missing or non-string slug gives `INTERNAL_ERROR` with status 500 and no store change, never `INVALID_SLUG` |
| PagesApiProperties.SimplePageAccepted | app/api/route.ts:169-177 | the documented "simple-page" request passes every check, with its slug, its one block and no metadata |

## Left out

- Parsing JSON (`req.json()`): the body is either `Unparseable` or a parsed value. The parser's error text in the `INVALID_JSON` details is not modelled.
- The `message` strings of the errors, and the `{ index, error }` message text that goes with each failing index: only the index is kept.
- The `timestamp` of the envelope (a clock), the response headers, JSON serialisation and `console.error` logging.
- The error details that depend on `NODE_ENV`, for `DATABASE_ERROR` and `INTERNAL_ERROR`.
- The database client itself. The table is a map from slug to page with insert-if-absent. Ids come from a counter, where the real store may issue them differently.
- Store.Insert: every failure other than a duplicate slug is one input flag, including rejections that depend on the data sent (such as a top-level JSON `null` for a nullable JSON column), which the model does not tie to the request; and a `metadata` the client did not send is stored and returned as absent, where the real store returns `null` and that `null` is what the 201 answer carries.
- Validation.ToLower: lowercases ASCII letters only, where JavaScript lowers all of Unicode. This does not change the reserved check, because no non-ASCII character lowers to a string made of the letters, `_` and `.` of the reserved words.
- JavaScript's UTF-16 string length: `validateSlug` only counts characters after the pattern has admitted ASCII alone, so the lengths agree.
- The `GET` handler, which serves static HTML documentation.
- The renderer in `app/[slug]/page.tsx` and the components under `app/components/`, which are presentation.
- `ensureDirectoryExists`, which performs filesystem I/O and is never called.
- Concurrent requests racing for one slug: the model runs one request at a time, and the uniqueness check decides every race.
