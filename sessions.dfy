/**
 * The session records of server.js and the pure parts of its handlers:
 * the expiry check shared by `/preview` and `/download`, the preview body,
 * the descriptors the upload loop collects, the sweep's effect on the store
 * and the whole effect of one `/upload` request on the store.
 *
 * Time is an explicit parameter `now`, in milliseconds, standing for
 * `Date.now()` at the moment the source reads it.
 */
module Sessions {
  import opened Wrappers
  import opened Codes

  /** `30 * 60 * 1000`: a session lives thirty minutes after it is stored. */
  const SessionTtlMs: int := 30 * 60 * 1000

  /** An uploaded file as the session keeps it: `{ url, name, type }`. */
  datatype FileDescriptor = FileDescriptor(url: string, name: string, mimeType: string)

  /**
   * A file of the multipart request: its original name, its MIME type and
   * the public URL of the object the storage step writes it to.
   */
  datatype IncomingFile = IncomingFile(originalName: string, mimeType: string, url: string)

  /** The record stored under a code: `{ files, text, link, expiresAt }`. */
  datatype Session = Session(files: seq<FileDescriptor>, text: string, link: string, expiresAt: int)

  /** The store: code to session record. */
  type Store = map<string, Session>

  /** The guard `!session || Date.now() > session.expiresAt`, negated. */
  predicate Visible(s: Session, now: int)
    ensures Visible(s, now) <==> now <= s.expiresAt
  {
    !(now > s.expiresAt)
  }

  /** Lazy expiry: a present entry whose deadline has passed reads as absent. */
  function Lookup(m: Store, code: string, now: int): (r: Option<Session>)
    ensures r.Some? <==> code in m && now <= m[code].expiresAt
    ensures r.Some? ==> r.value == m[code]
  {
    if code in m && Visible(m[code], now) then Some(m[code]) else None
  }

  /** An absent code and an expired one give the same answer. */
  lemma ExpiredLooksAbsent(m: Store, code: string, now: int)
    requires code in m && now > m[code].expiresAt
    ensures Lookup(m, code, now) == Lookup(m - {code}, code, now) == None
  {
  }

  /** A session is still visible at the very millisecond of its deadline, not one later. */
  lemma VisibleUntilDeadline(m: Store, code: string)
    requires code in m
    ensures Lookup(m, code, m[code].expiresAt) == Some(m[code])
    ensures Lookup(m, code, m[code].expiresAt + 1) == None
  {
  }

  /** Once a code reads as absent it stays absent as time goes on. */
  lemma LookupExpiryIsFinal(m: Store, code: string, now: int, later: int)
    requires now <= later && Lookup(m, code, now).None?
    ensures Lookup(m, code, later).None?
  {
  }

  // ---------------------------------------------------------------- preview

  /** The `/preview/:code` answer: `{ files, text, link }` or the 404. */
  datatype PreviewReply = PreviewFound(files: seq<FileDescriptor>, text: string, link: string) | PreviewNotFound

  /** The preview body for what the lookup returned. */
  function PreviewOf(found: Option<Session>): (reply: PreviewReply)
    ensures reply.PreviewNotFound? <==> found.None?
    ensures found.Some? ==>
      reply.files == found.value.files && reply.text == found.value.text && reply.link == found.value.link
  {
    match found
    case None => PreviewNotFound
    case Some(s) => PreviewFound(s.files, s.text, s.link)
  }

  // ---------------------------------------------------------------- upload

  /** The descriptor kept for one uploaded file: its object URL, original name and MIME type. */
  function Describe(f: IncomingFile): (d: FileDescriptor)
    ensures d.url == f.url && d.name == f.originalName && d.mimeType == f.mimeType
  {
    FileDescriptor(f.url, f.originalName, f.mimeType)
  }

  /**
   * The upload loop: one `putObject` per file, in order, each followed by a
   * push of its descriptor. `putFails` holds the positions whose `putObject`
   * rejects; the first such rejection ends the request with nothing stored,
   * reported here as `Err` of that position.
   */
  function StoreFiles(incoming: seq<IncomingFile>, putFails: set<nat>): (r: Result<seq<FileDescriptor>, nat>)
    // without a storage failure: one descriptor per file, in the files' order
    ensures r.Ok? <==> forall i :: 0 <= i < |incoming| ==> i !in putFails
    ensures r.Ok? ==> |r.value| == |incoming| && forall i :: 0 <= i < |incoming| ==> r.value[i] == Describe(incoming[i])
    // otherwise: the request fails at the first failing position
    ensures r.Err? ==> r.error < |incoming| && r.error in putFails && forall j :: 0 <= j < r.error ==> j !in putFails
    decreases |incoming|
  {
    if incoming == [] then Ok([])
    else
      var n := |incoming| - 1;
      var prefix := incoming[..n];
      assert forall i :: 0 <= i < n ==> prefix[i] == incoming[i];
      match StoreFiles(prefix, putFails)
      case Err(i) => Err(i)
      case Ok(ds) => if n in putFails then Err(n) else Ok(ds + [Describe(incoming[n])])
  }

  /** Once a prefix of the files has failed, the whole upload fails in the same place. */
  lemma {:induction false} StoreFilesFailureIsFinal(incoming: seq<IncomingFile>, putFails: set<nat>, k: nat)
    requires k <= |incoming| && StoreFiles(incoming[..k], putFails).Err?
    ensures StoreFiles(incoming, putFails) == StoreFiles(incoming[..k], putFails)
    decreases |incoming|
  {
    if k < |incoming| {
      var n := |incoming| - 1;
      assert incoming[..n][..k] == incoming[..k];
      StoreFilesFailureIsFinal(incoming[..n], putFails, k);
    } else {
      assert incoming[..k] == incoming;
    }
  }

  /** `req.body.text || ''`: a missing field becomes the empty string. */
  function OrEmpty(field: Option<string>): (s: string)
    ensures field.Some? ==> s == field.value
    ensures field.None? ==> s == ""
  {
    match field
    case None => ""
    case Some(v) => v
  }

  /**
   * `req.headers['x-session-id'] || generateCode()`: a non-empty header wins;
   * a missing or empty header makes the server generate a code.
   */
  function ChooseCode(taken: set<string>, header: Option<string>, draws: seq<Draw>): (r: Option<string>)
    ensures header.Some? && header.value != "" ==> r == Some(header.value)
    ensures (header.None? || header.value == "") ==> r == GeneratedCode(taken, draws)
    ensures (header.None? || header.value == "") && r.Some? ==> IsCode(r.value) && r.value !in taken
  {
    if header.Some? && header.value != "" then Some(header.value) else GeneratedCode(taken, draws)
  }

  /** What `/upload` answers. */
  datatype UploadOutcome =
    | Uploaded(code: string)     // `{ code, message }`, the session is stored
    | StorageFailed(file: nat)   // a `putObject` rejected: nothing is stored
    | DrawsExhausted             // the draw stream ran out before a free code was found

  /**
   * One `/upload` request against store `m`: the code is chosen first, the
   * files are written to storage one by one, and the session is then
   * assigned to the code unconditionally, with `expiresAt = now + 30 min`.
   */
  function UploadEffect(m: Store, header: Option<string>, incoming: seq<IncomingFile>, putFails: set<nat>,
                        text: Option<string>, link: Option<string>, draws: seq<Draw>, now: int): (r: (UploadOutcome, Store))
    // the request succeeds iff a code is chosen and no `putObject` rejects, and answers the chosen code
    ensures r.0.Uploaded? <==> ChooseCode(m.Keys, header, draws).Some? && forall i :: 0 <= i < |incoming| ==> i !in putFails
    ensures r.0.Uploaded? ==> ChooseCode(m.Keys, header, draws) == Some(r.0.code)
    ensures r.0.StorageFailed? ==> StoreFiles(incoming, putFails) == Err(r.0.file)
    ensures r.0.DrawsExhausted? <==> ChooseCode(m.Keys, header, draws).None?
    // a failed upload leaves the store as it was
    ensures !r.0.Uploaded? ==> r.1 == m
    // a successful one adds or replaces its own code and touches nothing else
    ensures r.0.Uploaded? ==>
      && r.1.Keys == m.Keys + {r.0.code}
      && (forall k :: k in m && k != r.0.code ==> r.1[k] == m[k])
      && r.1[r.0.code].expiresAt == now + SessionTtlMs
  {
    match ChooseCode(m.Keys, header, draws)
    case None => (DrawsExhausted, m)
    case Some(code) =>
      match StoreFiles(incoming, putFails)
      case Err(i) => (StorageFailed(i), m)
      case Ok(files) => (Uploaded(code), m[code := Session(files, OrEmpty(text), OrEmpty(link), now + SessionTtlMs)])
  }

  /**
   * After a successful upload the returned code looks up to exactly the files,
   * text and link supplied, for thirty minutes and not a millisecond longer.
   */
  lemma UploadThenLookup(m: Store, header: Option<string>, incoming: seq<IncomingFile>, putFails: set<nat>,
                         text: Option<string>, link: Option<string>, draws: seq<Draw>, now: int, later: int)
    requires UploadEffect(m, header, incoming, putFails, text, link, draws, now).0.Uploaded?
    ensures var (outcome, m') := UploadEffect(m, header, incoming, putFails, text, link, draws, now);
      var found := Lookup(m', outcome.code, later);
      (now <= later <= now + 1800000 ==>
        && found.Some?
        && |found.value.files| == |incoming|
        && (forall i :: 0 <= i < |incoming| ==> found.value.files[i] == Describe(incoming[i]))
        && found.value.text == OrEmpty(text)
        && found.value.link == OrEmpty(link)
        && found.value.expiresAt == now + 1800000)
      && (later > now + 1800000 ==> found.None?)
  {
  }

  /** A generated code is a fresh six-character code: such an upload never overwrites an entry. */
  lemma GeneratedUploadNeverOverwrites(m: Store, header: Option<string>, incoming: seq<IncomingFile>, putFails: set<nat>,
                                       text: Option<string>, link: Option<string>, draws: seq<Draw>, now: int)
    requires header.None? || header == Some("")
    requires UploadEffect(m, header, incoming, putFails, text, link, draws, now).0.Uploaded?
    ensures var (outcome, m') := UploadEffect(m, header, incoming, putFails, text, link, draws, now);
      IsCode(outcome.code) && outcome.code !in m && m'.Keys == m.Keys + {outcome.code}
  {
  }

  /**
   * A client-supplied code replaces whatever is stored under it, even a
   * session that is still live: the store step is an unconditional assignment.
   */
  lemma ClientCodeReplacesLiveEntry(m: Store, code: string, incoming: seq<IncomingFile>,
                                    text: Option<string>, link: Option<string>, draws: seq<Draw>, now: int)
    requires code != "" && code in m && Visible(m[code], now)
    ensures var (outcome, m') := UploadEffect(m, Some(code), incoming, {}, text, link, draws, now);
      && outcome == Uploaded(code)
      && m'[code] == Session(seq(|incoming|, i requires 0 <= i < |incoming| => Describe(incoming[i])),
                             OrEmpty(text), OrEmpty(link), now + SessionTtlMs)
      && m'.Keys == m.Keys
  {
    var files := StoreFiles(incoming, {}).value;
    assert files == seq(|incoming|, i requires 0 <= i < |incoming| => Describe(incoming[i]));
  }

  /** No validation: a request with no files, no text and no link still creates a session. */
  lemma EmptyUploadAccepted(m: Store, draws: seq<Draw>, now: int)
    requires GeneratedCode(m.Keys, draws).Some?
    ensures var (outcome, m') := UploadEffect(m, None, [], {}, None, None, draws, now);
      outcome.Uploaded? && m'[outcome.code] == Session([], "", "", now + SessionTtlMs)
  {
  }

  // ---------------------------------------------------------------- sweep

  /** The store after one sweep at `now`: entries with `now > expiresAt` are gone. */
  function Swept(m: Store, now: int): (r: Store)
    ensures forall k :: k in r <==> k in m && now <= m[k].expiresAt
    ensures forall k :: k in r ==> r[k] == m[k]
    ensures r.Keys == m.Keys - set k | k in m && m[k].expiresAt < now
  {
    map k | k in m && Visible(m[k], now) :: m[k]
  }

  /**
   * The sweep is invisible to readers: at the sweep's time and afterwards
   * every code looks up to the same answer as without the sweep.
   */
  lemma SweepPreservesLookups(m: Store, now: int, code: string, later: int)
    requires now <= later
    ensures Lookup(Swept(m, now), code, later) == Lookup(m, code, later)
  {
  }

  /** A second sweep at the same time removes nothing more. */
  lemma SweepIdempotent(m: Store, now: int)
    ensures Swept(Swept(m, now), now) == Swept(m, now)
  {
  }
}
