# Airbridge session registry, modelled in Dafny

Airbridge is a relay for sharing files, text and links for a short time. A client
uploads content. The server stores the files in an S3-compatible bucket and
answers with a six-character code (or the client's own `x-session-id`). Anyone holding the code can preview the
content or download it as one zip archive for thirty minutes. A timer
periodically deletes expired sessions.

This project models the one piece of logic that `server.js` owns itself. That
piece is the in-memory session store, `sessions`, a map from code to
`{ files, text, link, expiresAt }`, together with the handler steps that use it:

- `generateCode`: a reject-and-retry loop over `A-Z0-9`.
- The store step of `POST /upload`: code choice, the per-file upload loop, and an
  unconditional assignment with a thirty-minute deadline.
- The expiry guard of `GET /preview/:code` and `GET /download/:code`, and the
  preview body.
- The loop of `/download` that appends the files in order and skips those
  whose fetch fails.
- One run of the cleanup timer.

Files and modules:

- `wrappers.dfy` (`Wrappers`): `Option` and `Result`.
- `codes.dfy` (`Codes`): the alphabet, one attempt of the generator, the
  generator as a function of a stream of draws, and its lemmas.
- `sessions.dfy` (`Sessions`): the records, the lookup with lazy expiry, the
  preview body, the upload loop and the whole `/upload` effect as functions, the
  sweep's effect, and the lemmas that relate them.
- `archive.dfy` (`Archive`): archive entry order and skipping.
- `registry.dfy` (`Registry`): the class `SessionStore`, holding the
  `sessions: map<string, Session>` field, and the imperative loops: code
  generation, upload, download, sweep. Each method is proved against the
  functions above.
- `prototype.dfy` (`PrototypeLookup`): the lookup as the source evaluates it
  on a plain JavaScript object (see Findings).

How the environment is represented:

- `Math.random()` becomes a finite stream of draws. Each draw is a real in
  [0, 1), and one attempt consumes six draws.
- `Date.now()` becomes an explicit `now` in milliseconds.
- A `putObject` rejection is given as a set of file positions, and so is a
  failed archive fetch.
- Each uploaded file arrives with the object URL the storage step assigns it.

Behaviour of server.js that the model keeps:

- A session is visible while `now <= expiresAt`. The deadline millisecond is
  included, because the 404 test is `Date.now() > expiresAt` (server.js:82, 116).
- A client-supplied `x-session-id` overwrites a live session. Only generated
  codes are guaranteed fresh.
- An upload with no files, no text and no link is accepted.
- The sweep is the only deletion, and nothing is deleted from the bucket.

## Model

| member | source | states |
|---|---|---|
| `Codes.CharOf` | server.js:43-46 | `chars.charAt(Math.floor(r * chars.length))` with `r` in [0, 1) always yields a character of `A-Z0-9` |
| `Codes.Candidate` | server.js:46 | one attempt yields a six-character code, character `i` from draw `i` |
| `Codes.Attempt` | server.js:45-47 | the `k`-th attempt of a draw stream is a well-formed code |
| `Codes.GeneratedCode` | server.js:42-49 | the generator as a function of the draw stream: the first candidate that is not a key of the store. A generated code has length 6, uses only `A-Z0-9`, and is not a key of the store |
| `Codes.GeneratedCodeIsFirstFree` | server.js:45-47 | the generated code is the candidate of some attempt, and every earlier attempt collided with a key |
| `Codes.GeneratedCodeExhausted` | server.js:45-47 | the generator returns nothing iff every attempt the stream can feed collided: it never stops while a free candidate is drawn |
| `Registry.SessionStore.GenerateCode` | server.js:42-49 | the do-while loop returns the generator's result, a fresh well-formed code not in `sessions`, and it changes nothing |
| `Sessions.Describe` | server.js:66 | the pushed descriptor is `{ url, name: file.originalname, type: file.mimetype }` |
| `Sessions.StoreFiles` | server.js:54-67 | the upload loop as a function. It succeeds iff no `putObject` rejects, and then gives one descriptor per input file in input order; otherwise it fails at the first rejected position |
| `Sessions.StoreFilesFailureIsFinal` | server.js:56-63 | once a `putObject` has rejected, later files do not change the outcome |
| `Registry.CollectUploads` | server.js:54-67 | the upload loop returns exactly `Sessions.StoreFiles`: the descriptor list, or the first failing position |
| `Sessions.OrEmpty` | server.js:71-72 | a missing `text` or `link` field becomes `''`, a given one is kept |
| `Sessions.ChooseCode` | server.js:53 | a non-empty `x-session-id` header is the code. Without one, or with an empty one, the result is exactly `Codes.GeneratedCode` of the store's keys, so a generated code is a fresh six-character code |
| `Sessions.UploadEffect` | server.js:53-76 | one `/upload` as a function of the old store. It answers `Uploaded` iff `ChooseCode` picks a code and no `putObject` rejects, and the answered code is that pick. `StorageFailed` names the first rejected position. `DrawsExhausted` holds iff no code could be generated. A failed upload leaves the store unchanged. A successful one adds or replaces only its own code, with `expiresAt == now + SessionTtlMs` |
| `Sessions.UploadThenLookup` | server.js:69-74 | after a successful upload, the returned code looks up to the supplied files in order, the text and the link (or `''`), with `expiresAt == now + 1800000`; it reads as absent one millisecond after that deadline |
| `Sessions.GeneratedUploadNeverOverwrites` | server.js:53 | without an `x-session-id` header (or with an empty one), the code is a fresh six-character code and no entry is replaced |
| `Sessions.ClientCodeReplacesLiveEntry` | server.js:53-74 | a non-empty `x-session-id` naming a live session replaces that session, because the assignment is unconditional. The entry becomes the whole new record: the descriptors of the incoming files, the text, the link and the new deadline. The key set is unchanged |
| `Sessions.EmptyUploadAccepted` | server.js:53-76 | a request with no files, text or link still stores a session `{[], '', ''}` |
| `Registry.SessionStore.Upload` | server.js:53-76 | the code choice, the upload loop and the store step leave the answer and the new `sessions` equal to `Sessions.UploadEffect` of the old store |
| `Sessions.Visible` | server.js:116 | the negated 404 guard: a session is visible iff `now <= expiresAt` |
| `Sessions.Lookup` | server.js:81-84 | a code is found iff it is present and `now <= expiresAt`, and then the stored record itself is returned |
| `Sessions.ExpiredLooksAbsent` | server.js:115-118 | an expired entry answers exactly as an absent code: not found |
| `Sessions.VisibleUntilDeadline` | server.js:116 | an entry is still visible at `now == expiresAt` and gone one millisecond later |
| `Sessions.LookupExpiryIsFinal` | server.js:82 | a code that reads as absent stays absent at every later time |
| `Sessions.PreviewOf` | server.js:119-123 | the preview body is not-found iff the lookup failed, and otherwise carries the session's files, text and link verbatim |
| `Registry.SessionStore.Preview` | server.js:114-124 | `/preview` answers 200 with the stored files, text and link iff the code is present and `now <= expiresAt`; it only reads the store |
| `Archive.KeptPositions` | server.js:90-97 | the files the loop keeps are, in increasing order, exactly the positions whose fetch did not fail |
| `Archive.KeptAllWithoutFailures` | server.js:90-93 | with no failed fetch, every position is kept, in order |
| `Archive.ArchiveEntries` | server.js:90-97 | archive entry `j` is named by `file.name` of the `j`-th kept file: session order, failed fetches omitted |
| `Archive.ArchiveWithoutFailures` | server.js:90-93 | with every fetch succeeding, the archive holds every file's name in the session's order |
| `Archive.SecondOfThreeFails` | server.js:91-96 | three files whose second fetch fails give an archive holding the first and the third |
| `Registry.AssembleArchive` | server.js:90-99 | the download loop appends exactly `Archive.ArchiveEntries` of the session's files |
| `Registry.SessionStore.Download` | server.js:80-100 | `/download` answers 404 iff the lookup fails; otherwise it returns a zip named `<code>.zip` with the kept files' names in order. It has no `modifies` clause, so the store is unchanged |
| `Sessions.Swept` | server.js:128-132 | the store after one sweep: exactly the keys with `expiresAt < now` are removed, and every other entry is unchanged |
| `Sessions.SweepPreservesLookups` | server.js:128-132 | at the sweep's time and later, every code reads the same with or without the sweep; live entries survive it |
| `Sessions.SweepIdempotent` | server.js:128-132 | sweeping twice at the same time removes nothing more than sweeping once |
| `Registry.SessionStore.Sweep` | server.js:128-132 | the `for…in` loop with `delete` leaves `sessions` equal to `Sessions.Swept` of the old store |
| `Registry.SessionStore.constructor` | server.js:39 | the store starts empty |
| `PrototypeLookup.PropertyOf` | server.js:81 | `sessions[code]` is the stored entry for an own key, an inherited member for an `Object.prototype` name, otherwise undefined |
| `PrototypeLookup.PassesGuardAsWritten` | server.js:116 | the guard as the source evaluates it passes for a stored code with `now <= expiresAt`, and also for an unstored `Object.prototype` name |
| `PrototypeLookup.ConstructorPassesGuard` | server.js:115-118 | as written, `GET /preview/constructor` on an empty store passes the 404 guard, while the intended lookup finds nothing |
| `PrototypeLookup.GuardAgreesElsewhere` | server.js:116 | for every code that is stored or is not an inherited name, the guard as written agrees with the intended lookup |
| `PrototypeLookup.GeneratedCodesAreNotInherited` | server.js:43-46 | no generated code is an `Object.prototype` name |

## Left out

- S3 `putObject`, the bucket URL and the `Date.now()`-based object key are storage I/O and are left out. Each incoming file carries its object URL as given input, and a rejected put is a position in `putFails`.
- The `axios` stream fetch, `archiver` and `archive.pipe` are foreign libraries and are left out. Only the entry names, their order and the skipping of failed fetches are modelled.
- `QRCode.toDataURL` and the `/qrcode` handler are left out because they are image-encoding library work.
- Express, CORS and multer wiring, the HTTP status and JSON plumbing, and `app.listen` are left out as transport.
- The `setInterval` scheduling is left out. One tick is `SessionStore.Sweep(now)`.
- Concurrency is left out. When the request has at least one file, upload awaits between choosing the code and storing the session, so another request can store the same code in that window. The model runs each request as one step.
- Registry.SessionStore.GenerateCode: the draw stream is finite, so the model can return None (`DrawsExhausted`). The source would instead keep drawing for as long as it takes.
- Registry.SessionStore.Sweep: reads the clock once per sweep. The source reads `Date.now()` once per entry, so an entry whose deadline falls within one sweep may or may not be removed there.
- Registry.SessionStore.Preview: uses the intended `Sessions.Lookup`. For the twelve `Object.prototype` names the source's guard passes although nothing is stored, and the reply is `{"files": []}`. That behaviour is modelled separately by `PrototypeLookup.PassesGuardAsWritten` (see Findings).
- Registry.SessionStore.Download: uses the intended `Sessions.Lookup`. For the twelve `Object.prototype` names the source's guard passes, and the handler then throws at server.js:90. That behaviour is modelled separately by `PrototypeLookup.PassesGuardAsWritten` (see Findings).
- Registry.SessionStore.Upload: a client code `__proto__` replaces the store object's prototype instead of adding an entry. The model stores it like any other code.
- Codes.CharOf: a `Draw` is an exact real. In the source, `Math.random() * chars.length` is a rounded double product, so a double just below `k/36` can floor to `k` where the model gives `k - 1`. No property depends on which character is chosen.
- Timestamps are JavaScript doubles in the source and are modelled as unbounded integers. They are exact below 2^53 ms.
- When a `putObject` rejects (server.js:58-63), the `async` handler (server.js:52) rejects. Express 4 ignores that promise, and server.js has no `unhandledRejection` listener, so on Node 15 and later the process ends and every entry in `sessions` is lost. Under Express 5 the client gets a 500 instead and the store is kept. The model's `StorageFailed`, with the store unchanged, matches only the Express 5 case: the process ending is not modelled. Files written to the bucket before the failure stay there, and that is not modelled either.

## Findings

| source | as written | input that shows it | evidently intended | confidence | as-written member | corrected member |
|---|---|---|---|---|---|---|
| server.js:81-84, 115-118 | `sessions` is a plain object, so `sessions[code]` also yields `Object.prototype` members. Such a member is truthy, and `Date.now() > undefined` is false, so the 404 guard passes | `GET /preview/constructor` with no session stored: answers 200 with `{"files": []}`; `GET /download/constructor` passes the guard too. Then the `for…of` over the undefined `files` (server.js:90) throws inside the async handler. Under Express 4 with no `unhandledRejection` listener, Node 15 and later then end the process, losing every session | only stored, unexpired sessions pass the guard | high, not executed | `PrototypeLookup.ConstructorPassesGuard` | `Sessions.Lookup` |
