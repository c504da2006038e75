/**
 * The in-memory session store of server.js (`const sessions = {}`) and the
 * handler steps that read or change it: code generation, the store step of
 * `/upload`, the lookups of `/preview` and `/download`, and one run of the
 * periodic cleanup.
 */
module Registry {
  import opened Wrappers
  import opened Codes
  import opened Sessions
  import opened Archive

  /**
   * The upload loop: `putObject` each file in turn and push its descriptor.
   * The first rejected `putObject` (a position in `putFails`) ends the loop.
   */
  method CollectUploads(incoming: seq<IncomingFile>, putFails: set<nat>) returns (stored: Result<seq<FileDescriptor>, nat>)
    ensures stored == StoreFiles(incoming, putFails)
  {
    var uploaded: seq<FileDescriptor> := [];
    for i := 0 to |incoming|
      invariant StoreFiles(incoming[..i], putFails) == Ok(uploaded)
    {
      assert incoming[..i + 1][..i] == incoming[..i];
      if i in putFails {
        StoreFilesFailureIsFinal(incoming, putFails, i + 1);
        return Err(i);
      }
      uploaded := uploaded + [Describe(incoming[i])];
    }
    assert incoming[..|incoming|] == incoming;
    stored := Ok(uploaded);
  }

  /** The download loop: append each file that could be fetched, in order. */
  method AssembleArchive(files: seq<FileDescriptor>, failed: set<nat>) returns (entries: seq<string>)
    ensures entries == ArchiveEntries(files, failed)
  {
    entries := [];
    for i := 0 to |files|
      invariant entries == ArchiveEntries(files[..i], failed)
    {
      assert files[..i + 1][..i] == files[..i];
      if i !in failed {
        entries := entries + [files[i].name];
      }
    }
    assert files[..|files|] == files;
  }

  class SessionStore {
    /** Code to session record; a plain object in the source. */
    var sessions: Store

    constructor ()
      ensures sessions == map[]
    {
      sessions := map[];
    }

    /**
     * `generateCode`: draw six characters, again and again while the code is
     * already a key of the store.
     */
    method GenerateCode(draws: seq<Draw>) returns (code: Option<string>)
      ensures code == GeneratedCode(sessions.Keys, draws)
      ensures code.Some? ==> IsCode(code.value) && code.value !in sessions
    {
      var used := 0;
      code := None;
      while used + CodeLength <= |draws|
        invariant used <= |draws|
        invariant GeneratedCode(sessions.Keys, draws[used..]) == GeneratedCode(sessions.Keys, draws)
        decreases |draws| - used
      {
        var rest := draws[used..];
        var candidate := Candidate(draws[used..used + CodeLength]);
        assert rest[..CodeLength] == draws[used..used + CodeLength];
        assert rest[CodeLength..] == draws[used + CodeLength..];
        used := used + CodeLength;
        if candidate !in sessions {
          code := Some(candidate);
          break;
        }
      }
    }

    /**
     * `POST /upload`: choose the code (a non-empty `x-session-id` header, or
     * a generated one), store the files, then assign the session to the code.
     */
    method Upload(header: Option<string>, incoming: seq<IncomingFile>, putFails: set<nat>,
                  text: Option<string>, link: Option<string>, draws: seq<Draw>, now: int)
      returns (outcome: UploadOutcome)
      modifies this
      ensures (outcome, sessions) == UploadEffect(old(sessions), header, incoming, putFails, text, link, draws, now)
    {
      var code: string;
      if header.Some? && header.value != "" {
        code := header.value;
      } else {
        var generated := GenerateCode(draws);
        if generated.None? {
          return DrawsExhausted;
        }
        code := generated.value;
      }
      var stored := CollectUploads(incoming, putFails);
      if stored.Err? {
        return StorageFailed(stored.error);
      }
      sessions := sessions[code := Session(stored.value, OrEmpty(text), OrEmpty(link), now + SessionTtlMs)];
      outcome := Uploaded(code);
    }

    /** `GET /preview/:code`: the files, text and link of a visible session, or 404. */
    function Preview(code: string, now: int): (reply: PreviewReply)
      reads this
      ensures reply.PreviewFound? <==> code in sessions && now <= sessions[code].expiresAt
      ensures reply.PreviewFound? ==>
        reply == PreviewFound(sessions[code].files, sessions[code].text, sessions[code].link)
    {
      PreviewOf(Lookup(sessions, code, now))
    }

    /**
     * `GET /download/:code`: 404 for an absent or expired code, otherwise a
     * zip named `<code>.zip` holding the files that could be fetched.
     * The method has no `modifies` clause: downloading never changes the store.
     */
    method Download(code: string, now: int, failed: set<nat>) returns (reply: DownloadReply)
      ensures reply.DownloadNotFound? <==> Lookup(sessions, code, now).None?
      ensures reply.ZipArchive? ==>
        reply.fileName == code + ".zip" && reply.entries == ArchiveEntries(sessions[code].files, failed)
    {
      var found := Lookup(sessions, code, now);
      if found.None? {
        return DownloadNotFound;
      }
      var entries := AssembleArchive(found.value.files, failed);
      reply := ZipArchive(code + ".zip", entries);
    }

    /** One run of the cleanup timer: delete every entry with `now > expiresAt`. */
    method Sweep(now: int)
      modifies this
      ensures sessions == Swept(old(sessions), now)
    {
      var pending := sessions.Keys;
      while pending != {}
        invariant pending <= sessions.Keys <= old(sessions).Keys
        invariant forall k :: k in old(sessions) && k !in pending ==>
          (k in sessions <==> Visible(old(sessions)[k], now))
        invariant forall k :: k in sessions ==> sessions[k] == old(sessions)[k]
        decreases pending
      {
        var k :| k in pending;
        if now > sessions[k].expiresAt {
          sessions := sessions - {k};
        }
        pending := pending - {k};
      }
    }
  }
}
