/** What `handle_upload` (web_server.py:304-390) and `handle_delete`
    (web_server.py:486-500) do to the index and the upload directory, as
    functions of the state before the request. */
module Uploads {
  import opened Common
  import opened PyStrings
  import opened Config
  import opened Helpers
  import opened Quota

  // ---------------------------------------------------------------------------
  // The request body
  // ---------------------------------------------------------------------------

  /** The first multipart field: its name, its file name (`None` when the
      part's Content-Disposition has no `filename`), and the lengths
      `read_chunk()` returns one after another. An empty chunk (length 0),
      or the end of the sequence, is the end of the body. */
  datatype Field = Field(name: string, filename: Option<string>, chunks: seq<nat>)

  /** The number of non-empty chunks before the end of the body. */
  function DataChunks(chunks: seq<nat>): (n: nat)
    ensures n <= |chunks|
    ensures forall i :: 0 <= i < n ==> chunks[i] > 0
    ensures n < |chunks| ==> chunks[n] == 0
  {
    if |chunks| == 0 || chunks[0] == 0 then 0 else 1 + DataChunks(chunks[1..])
  }

  function Sum(s: seq<nat>): nat
  {
    if |s| == 0 then 0 else Sum(s[..|s| - 1]) + s[|s| - 1]
  }

  /** The size of the body: all bytes before its end. */
  function BodySize(chunks: seq<nat>): nat
  {
    Sum(chunks[..DataChunks(chunks)])
  }

  /** How the write loop of web_server.py:343-352 ends. */
  datatype LoopEnd =
    | Completed(size: nat)             // an empty chunk was read
    | QuotaHit(size: nat, last: nat)   // the chunk of length `last` took the total over
    | Interrupted(size: nat)           // a read or write raised, or the handler was cancelled

  /** The loop from its `i`-th read on, `size` bytes written so far.
      `abortAt` is the read at which an exception or a cancellation occurs,
      if any. */
  function ReadLoop(chunks: seq<nat>, i: nat, size: nat, usage: nat, limit: int, abortAt: Option<nat>): LoopEnd
    decreases |chunks| - i
  {
    if abortAt == Some(i) then Interrupted(size)
    else if i >= |chunks| || chunks[i] == 0 then Completed(size)
    else
      var written := size + chunks[i];
      if limit > 0 && usage + written > limit then QuotaHit(written, chunks[i])
      else ReadLoop(chunks, i + 1, written, usage, limit, abortAt)
  }

  /** A chunk that is neither the end nor over the limit hands on to the
      next read. */
  lemma ReadLoopStep(chunks: seq<nat>, i: nat, size: nat, usage: nat, limit: int, abortAt: Option<nat>)
    requires abortAt != Some(i) && i < |chunks| && chunks[i] != 0
    requires !(limit > 0 && usage + size + chunks[i] > limit)
    ensures ReadLoop(chunks, i, size, usage, limit, abortAt)
            == ReadLoop(chunks, i + 1, size + chunks[i], usage, limit, abortAt)
  {
  }

  lemma SumSnoc(s: seq<nat>, x: nat)
    ensures Sum(s + [x]) == Sum(s) + x
  {
    assert (s + [x])[..|s|] == s;
  }

  /** A loop that completes has written the whole body, and with a positive
      limit every total it reached stayed within the limit. */
  lemma {:induction false} CompletedLoop(chunks: seq<nat>, i: nat, size: nat, usage: nat, limit: int, abortAt: Option<nat>)
    requires i <= DataChunks(chunks)
    requires size == Sum(chunks[..i])
    requires ReadLoop(chunks, i, size, usage, limit, abortAt).Completed?
    ensures ReadLoop(chunks, i, size, usage, limit, abortAt).size == BodySize(chunks)
    ensures limit > 0 && ReadLoop(chunks, i, size, usage, limit, abortAt).size != size ==>
              usage + BodySize(chunks) <= limit
    decreases |chunks| - i
  {
    var n := DataChunks(chunks);
    if i == n {
    } else {
      assert chunks[..i + 1] == chunks[..i] + [chunks[i]];
      SumSnoc(chunks[..i], chunks[i]);
      CompletedLoop(chunks, i + 1, size + chunks[i], usage, limit, abortAt);
    }
  }

  /** A loop stopped by the quota stops at the first chunk that takes the
      total over the limit: without that chunk the total was within it, so
      at most one chunk overshoots. */
  lemma {:induction false} QuotaHitOvershoot(chunks: seq<nat>, i: nat, size: nat, usage: nat, limit: int, abortAt: Option<nat>)
    requires usage + size <= limit
    requires ReadLoop(chunks, i, size, usage, limit, abortAt).QuotaHit?
    ensures var e := ReadLoop(chunks, i, size, usage, limit, abortAt);
            limit > 0 && 0 < e.last <= e.size
            && usage + e.size - e.last <= limit < usage + e.size
    decreases |chunks| - i
  {
    if limit <= 0 {
      NoLimitNoQuotaHit(chunks, i, size, usage, limit, abortAt);
    } else if abortAt != Some(i) && i < |chunks| && chunks[i] != 0 && usage + size + chunks[i] <= limit {
      QuotaHitOvershoot(chunks, i + 1, size + chunks[i], usage, limit, abortAt);
    }
  }

  /** Without a positive limit the quota never stops the loop. */
  lemma {:induction false} NoLimitNoQuotaHit(chunks: seq<nat>, i: nat, size: nat, usage: nat, limit: int, abortAt: Option<nat>)
    requires limit <= 0
    ensures !ReadLoop(chunks, i, size, usage, limit, abortAt).QuotaHit?
    decreases |chunks| - i
  {
    if abortAt != Some(i) && i < |chunks| && chunks[i] != 0 {
      NoLimitNoQuotaHit(chunks, i + 1, size + chunks[i], usage, limit, abortAt);
    }
  }

  // ---------------------------------------------------------------------------
  // handle_upload
  // ---------------------------------------------------------------------------

  /** The JSON answer of an upload, without its human-readable texts. */
  datatype UploadOutcome =
    | MissingField                                    // 400 "missing file field"
    | QuotaFull(limit: int, used: nat)                // 400 before any write, "remaining": "0 B"
    | QuotaExceeded(limit: int, used: nat, remaining: nat)  // 400 after the write loop stopped
    | Failed                                          // the exception propagates; nothing committed
    | Uploaded(url: string, token: string)

  /** An outcome with the index and the upload directory after it. */
  datatype Step<O> = Step(outcome: O, index: Index, disk: Disk)

  /** `f"{token}-{filename}"`: a missing file name prints as `None`. */
  function SavedName(token: string, filename: Option<string>): (name: string)
    ensures StartsWith(name, token + "-")
    ensures filename.Some? ==> EndsWith(name, filename.value)
    ensures filename.None? ==> EndsWith(name, "None")
  {
    var text := if filename.Some? then filename.value else "None";
    assert (token + "-" + text)[..|token| + 1] == token + "-";
    assert (token + "-" + text)[|token| + 1..] == text;
    token + "-" + text
  }

  /** `handle_upload` on the state `index`, `disk`; `token` is the fresh
      `uuid4().hex`, `now` the clock at commit, `limit` is
      `MAX_IP_STORAGE_BYTES`. */
  ghost function UploadSpec(index: Index, disk: Disk, field: Option<Field>, token: string, now: real,
                            req: Request, settings: Settings, limit: int, abortAt: Option<nat>): Step<UploadOutcome>
  {
    if field.None? || field.value.name != "file" then Step(MissingField, index, disk)
    else
      var saved := SavedName(token, field.value.filename);
      var ip := ClientIp(req.forwardedFor, req.peerHost);
      var usage := if limit > 0 then Usage(index, ip) else 0;
      if limit > 0 && usage >= limit then Step(QuotaFull(limit, usage), index, disk)
      else AfterLoop(index, disk, field.value.filename, token, now, req, settings, limit, usage,
                     ReadLoop(field.value.chunks, 0, 0, usage, limit, abortAt))
  }

  /** Past the field check and the pre-flight quota check, the handler's
      result is decided by how the write loop ends. */
  lemma UploadSpecPastPreflight(index: Index, disk: Disk, f: Field, token: string, now: real,
                                req: Request, settings: Settings, limit: int, abortAt: Option<nat>, usage: nat)
    requires f.name == "file"
    requires usage == if limit > 0 then Usage(index, ClientIp(req.forwardedFor, req.peerHost)) else 0
    requires !(limit > 0 && usage >= limit)
    ensures UploadSpec(index, disk, Some(f), token, now, req, settings, limit, abortAt)
            == AfterLoop(index, disk, f.filename, token, now, req, settings, limit, usage,
                         ReadLoop(f.chunks, 0, 0, usage, limit, abortAt))
  {
  }

  /** What the handler does once the write loop has ended as `end`, with
      `usage` the uploader's total before the request. */
  function AfterLoop(index: Index, disk: Disk, filename: Option<string>, token: string, now: real, req: Request,
                     settings: Settings, limit: int, usage: nat, end: LoopEnd): Step<UploadOutcome>
  {
    var saved := SavedName(token, filename);
    match end
    case Interrupted(_) => Step(Failed, index, disk - {saved})
    case QuotaHit(_, _) => Step(QuotaExceeded(limit, usage, NonNegative(limit - usage)), index, disk - {saved})
    case Completed(size) =>
      var r := FileRecord(filename, saved, size, Trunc(now), ClientIp(req.forwardedFor, req.peerHost), "web");
      Step(Uploaded(MakeFileUrl(settings, req, token), token), index[token := r], disk[saved := size])
  }

  /** A missing or misnamed field is answered with 400 and changes
      nothing. */
  lemma MissingFieldChangesNothing(index: Index, disk: Disk, field: Option<Field>, token: string, now: real,
                                   req: Request, settings: Settings, limit: int, abortAt: Option<nat>)
    requires field.None? || field.value.name != "file"
    ensures UploadSpec(index, disk, field, token, now, req, settings, limit, abortAt)
            == Step(MissingField, index, disk)
  {
  }

  /** The pre-flight check: with a positive limit already used up by the
      client's address, the upload is refused before anything is written.
      With a limit of 0 or less it never refuses. */
  lemma PreflightRejectsWhenFull(index: Index, disk: Disk, f: Field, token: string, now: real,
                                 req: Request, settings: Settings, limit: int, abortAt: Option<nat>)
    requires f.name == "file"
    ensures var ip := ClientIp(req.forwardedFor, req.peerHost);
            var s := UploadSpec(index, disk, Some(f), token, now, req, settings, limit, abortAt);
            (s.outcome.QuotaFull? <==> limit > 0 && Usage(index, ip) >= limit)
            && (s.outcome.QuotaFull? ==> s.outcome.used == Usage(index, ip) && s.index == index && s.disk == disk)
  {
    var ip := ClientIp(req.forwardedFor, req.peerHost);
    if !(limit > 0 && Usage(index, ip) >= limit) {
      var usage := if limit > 0 then Usage(index, ip) else 0;
      UploadSpecPastPreflight(index, disk, f, token, now, req, settings, limit, abortAt, usage);
      AfterLoopIsNotPreflight(index, disk, f.filename, token, now, req, settings, limit, usage,
                              ReadLoop(f.chunks, 0, 0, usage, limit, abortAt));
    }
  }

  lemma AfterLoopIsNotPreflight(index: Index, disk: Disk, filename: Option<string>, token: string, now: real,
                                req: Request, settings: Settings, limit: int, usage: nat, end: LoopEnd)
    ensures !AfterLoop(index, disk, filename, token, now, req, settings, limit, usage, end).outcome.QuotaFull?
  {
  }

  /** A successful upload commits exactly one record, at the new token, for
      the whole body, and leaves every other entry alone. */
  lemma UploadCommitsOneRecord(index: Index, disk: Disk, f: Field, token: string, now: real,
                               req: Request, settings: Settings, limit: int, abortAt: Option<nat>)
    requires UploadSpec(index, disk, Some(f), token, now, req, settings, limit, abortAt).outcome.Uploaded?
    ensures var s := UploadSpec(index, disk, Some(f), token, now, req, settings, limit, abortAt);
            s.index.Keys == index.Keys + {token}
            && (forall t :: t in index && t != token ==> s.index[t] == index[t])
            && s.index[token] == FileRecord(f.filename, SavedName(token, f.filename), BodySize(f.chunks),
                                            Trunc(now), ClientIp(req.forwardedFor, req.peerHost), "web")
            && s.disk == disk[SavedName(token, f.filename) := BodySize(f.chunks)]
            && s.outcome.token == token && EndsWith(s.outcome.url, "/files/" + token)
  {
    var ip := ClientIp(req.forwardedFor, req.peerHost);
    var usage := if limit > 0 then Usage(index, ip) else 0;
    assert f.chunks[..0] == [];
    CompletedLoop(f.chunks, 0, 0, usage, limit, abortAt);
  }

  /** A file part without a file name is still stored: under
      `<token>-None`, with a null file name in its entry. */
  lemma UnnamedUploadIsStored(index: Index, disk: Disk, f: Field, token: string, now: real,
                              req: Request, settings: Settings, limit: int, abortAt: Option<nat>)
    requires f.filename.None?
    requires UploadSpec(index, disk, Some(f), token, now, req, settings, limit, abortAt).outcome.Uploaded?
    ensures var s := UploadSpec(index, disk, Some(f), token, now, req, settings, limit, abortAt);
            token in s.index && s.index[token].filename.None?
            && s.index[token].savedName == token + "-None" && token + "-None" in s.disk
  {
    UploadCommitsOneRecord(index, disk, f, token, now, req, settings, limit, abortAt);
  }

  /** With a positive limit, after a successful upload the client's address
      is charged at most the limit, whatever the index held before. */
  lemma UploadRespectsQuota(index: Index, disk: Disk, f: Field, token: string, now: real,
                            req: Request, settings: Settings, limit: int, abortAt: Option<nat>)
    requires limit > 0
    requires UploadSpec(index, disk, Some(f), token, now, req, settings, limit, abortAt).outcome.Uploaded?
    ensures Usage(UploadSpec(index, disk, Some(f), token, now, req, settings, limit, abortAt).index,
                  ClientIp(req.forwardedFor, req.peerHost)) <= limit
  {
    var ip := ClientIp(req.forwardedFor, req.peerHost);
    var usage := Usage(index, ip);
    assert f.chunks[..0] == [];
    CompletedLoop(f.chunks, 0, 0, usage, limit, abortAt);
    var size := ReadLoop(f.chunks, 0, 0, usage, limit, abortAt).size;
    var r := FileRecord(f.filename, SavedName(token, f.filename), size, Trunc(now), ip, "web");
    UsageUpdate(index, ip, token, r);
  }

  /** Every answer but a successful upload leaves the index as it was. */
  lemma OnlySuccessChangesIndex(index: Index, disk: Disk, field: Option<Field>, token: string, now: real,
                                req: Request, settings: Settings, limit: int, abortAt: Option<nat>)
    ensures var s := UploadSpec(index, disk, field, token, now, req, settings, limit, abortAt);
            !s.outcome.Uploaded? ==> s.index == index
  {
    if field.Some? && field.value.name == "file" {
      var ip := ClientIp(req.forwardedFor, req.peerHost);
      if !(limit > 0 && Usage(index, ip) >= limit) {
        var f := field.value;
        var usage := if limit > 0 then Usage(index, ip) else 0;
        UploadSpecPastPreflight(index, disk, f, token, now, req, settings, limit, abortAt, usage);
      }
    }
  }

  /** Uploads keep every address within a positive limit. */
  lemma UploadKeepsQuota(index: Index, disk: Disk, field: Option<Field>, token: string, now: real,
                         req: Request, settings: Settings, limit: int, abortAt: Option<nat>)
    requires WithinQuota(index, limit)
    ensures WithinQuota(UploadSpec(index, disk, field, token, now, req, settings, limit, abortAt).index, limit)
  {
    var s := UploadSpec(index, disk, field, token, now, req, settings, limit, abortAt);
    OnlySuccessChangesIndex(index, disk, field, token, now, req, settings, limit, abortAt);
    if !s.outcome.Uploaded? {
      assert s.index == index;
    } else if limit > 0 {
      var f := field.value;
      var ip := ClientIp(req.forwardedFor, req.peerHost);
      var size := s.index[token].size;
      var r := FileRecord(f.filename, SavedName(token, f.filename), size, Trunc(now), ip, "web");
      assert s.index == index[token := r];
      forall other: string
        ensures Usage(s.index, other) <= limit
      {
        UsageUpdate(index, other, token, r);
        if other == ip {
          UploadRespectsQuota(index, disk, f, token, now, req, settings, limit, abortAt);
        }
      }
    }
  }

  /** When the write loop is stopped by the quota, the partial file is
      removed, no entry is made, and the answer reports the usage before the
      upload and what was left of the limit. The file held at most one chunk
      beyond the limit. */
  lemma QuotaExceededLeavesNoEntry(index: Index, disk: Disk, f: Field, token: string, now: real,
                                   req: Request, settings: Settings, limit: int, abortAt: Option<nat>)
    requires UploadSpec(index, disk, Some(f), token, now, req, settings, limit, abortAt).outcome.QuotaExceeded?
    ensures var ip := ClientIp(req.forwardedFor, req.peerHost);
            var s := UploadSpec(index, disk, Some(f), token, now, req, settings, limit, abortAt);
            var e := ReadLoop(f.chunks, 0, 0, Usage(index, ip), limit, abortAt);
            s.index == index && s.disk == disk - {SavedName(token, f.filename)}
            && Usage(index, ip) < limit
            && s.outcome == QuotaExceeded(limit, Usage(index, ip), NonNegative(limit - Usage(index, ip)))
            && e.QuotaHit? && Usage(index, ip) + e.size - e.last <= limit < Usage(index, ip) + e.size
  {
    var ip := ClientIp(req.forwardedFor, req.peerHost);
    if limit <= 0 {
      NoLimitNoQuotaHit(f.chunks, 0, 0, 0, limit, abortAt);
    }
    QuotaHitOvershoot(f.chunks, 0, 0, Usage(index, ip), limit, abortAt);
  }

  /** An exception or a cancellation during the write loop removes the
      partial file and leaves the index alone; if no file had that name
      before, the upload leaves no trace. */
  lemma FailedUploadLeavesNoTrace(index: Index, disk: Disk, f: Field, token: string, now: real,
                                  req: Request, settings: Settings, limit: int, abortAt: Option<nat>)
    requires UploadSpec(index, disk, Some(f), token, now, req, settings, limit, abortAt).outcome.Failed?
    ensures var s := UploadSpec(index, disk, Some(f), token, now, req, settings, limit, abortAt);
            s.index == index && s.disk == disk - {SavedName(token, f.filename)}
            && (SavedName(token, f.filename) !in disk ==> s.disk == disk)
  {
  }

  /** An upload interrupted at its first read fails whatever the body. */
  lemma CancelledBeforeFirstRead(index: Index, disk: Disk, f: Field, token: string, now: real,
                                 req: Request, settings: Settings, abortAt: Option<nat>)
    requires f.name == "file" && abortAt == Some(0)
    ensures UploadSpec(index, disk, Some(f), token, now, req, settings, 0, abortAt).outcome == Failed
  {
  }

  /** A ten-byte body against a five-byte limit on an empty index is
      refused after the first chunk and leaves nothing behind. */
  lemma TenBytesOverFiveByteLimit(token: string, now: real, req: Request, settings: Settings)
    ensures var f := Field("file", Some("a.bin"), [10]);
            UploadSpec(map[], map[], Some(f), token, now, req, settings, 5, None)
            == Step(QuotaExceeded(5, 0, 5), map[], map[])
  {
    UsageEmpty(ClientIp(req.forwardedFor, req.peerHost));
    assert ReadLoop([10], 0, 0, 0, 5, None) == QuotaHit(10, 10);
  }

  /** The same body without a limit is stored whole. */
  lemma TenBytesWithoutLimit(token: string, now: real, req: Request, settings: Settings)
    ensures var f := Field("file", Some("a.bin"), [4, 6, 0]);
            var s := UploadSpec(map[], map[], Some(f), token, now, req, settings, 0, None);
            s.outcome.Uploaded? && s.index[token].size == 10 && s.disk[SavedName(token, Some("a.bin"))] == 10
  {
    assert ReadLoop([4, 6, 0], 2, 10, 0, 0, None) == Completed(10);
    assert ReadLoop([4, 6, 0], 1, 4, 0, 0, None) == Completed(10);
  }

  // ---------------------------------------------------------------------------
  // handle_delete
  // ---------------------------------------------------------------------------

  datatype DeleteOutcome =
    | NotFound    // 404 "file not found"
    | Forbidden   // 403 "not allowed"
    | Deleted     // {"ok": true}

  /** `handle_delete` for `token`, asked from `req`'s address. */
  function DeleteSpec(index: Index, disk: Disk, token: string, req: Request): Step<DeleteOutcome>
  {
    if token !in index then Step(NotFound, index, disk)
    else if index[token].ip != ClientIp(req.forwardedFor, req.peerHost) then Step(Forbidden, index, disk)
    else Step(Deleted, index - {token}, disk - {index[token].savedName})
  }

  /** Only the address that uploaded a file can delete it; a delete removes
      exactly that entry and its file, and every other token is untouched. */
  lemma DeleteRemovesOnlyThatEntry(index: Index, disk: Disk, token: string, req: Request)
    ensures var s := DeleteSpec(index, disk, token, req);
            (s.outcome == Deleted <==> token in index && index[token].ip == ClientIp(req.forwardedFor, req.peerHost))
            && (token !in index ==> s.outcome == NotFound)
            && (token in index && index[token].ip != ClientIp(req.forwardedFor, req.peerHost) ==> s.outcome == Forbidden)
            && (s.outcome != Deleted ==> s.index == index && s.disk == disk)
            && (s.outcome == Deleted ==>
                  s.index.Keys == index.Keys - {token} && s.disk.Keys == disk.Keys - {index[token].savedName})
            && (forall t :: t in index && t != token ==> t in s.index && s.index[t] == index[t])
  {
  }

  /** Deleting the same token twice: the second delete finds nothing. */
  lemma DeleteTwiceNotFound(index: Index, disk: Disk, token: string, req: Request, req2: Request)
    requires DeleteSpec(index, disk, token, req).outcome == Deleted
    ensures var s := DeleteSpec(index, disk, token, req);
            DeleteSpec(s.index, s.disk, token, req2) == Step(NotFound, s.index, s.disk)
  {
  }

  /** A delete uncharges the deleted file from its uploader. */
  lemma DeleteFreesQuota(index: Index, disk: Disk, token: string, req: Request)
    requires DeleteSpec(index, disk, token, req).outcome == Deleted
    ensures Usage(DeleteSpec(index, disk, token, req).index, index[token].ip)
            == Usage(index, index[token].ip) - index[token].size
  {
    UsageRemove(index, index[token].ip, token);
  }

  /** Deletes keep every address within a positive limit. */
  lemma DeleteKeepsQuota(index: Index, disk: Disk, token: string, req: Request, limit: int)
    requires WithinQuota(index, limit)
    ensures WithinQuota(DeleteSpec(index, disk, token, req).index, limit)
  {
    var s := DeleteSpec(index, disk, token, req);
    if limit > 0 && s.outcome == Deleted {
      forall ip: string
        ensures Usage(s.index, ip) <= limit
      {
        UsageRemove(index, ip, token);
      }
    }
  }

  /** One request of a sequence of uploads and deletes. */
  datatype Action =
    | UploadRequest(field: Option<Field>, token: string, now: real, req: Request, abortAt: Option<nat>)
    | DeleteRequest(token: string, req: Request)

  ghost function Apply(index: Index, disk: Disk, r: Action, settings: Settings, limit: int): (Index, Disk)
  {
    match r
    case UploadRequest(field, token, now, req, abortAt) =>
      var s := UploadSpec(index, disk, field, token, now, req, settings, limit, abortAt);
      (s.index, s.disk)
    case DeleteRequest(token, req) =>
      var s := DeleteSpec(index, disk, token, req);
      (s.index, s.disk)
  }

  ghost function Run(index: Index, disk: Disk, rs: seq<Action>, settings: Settings, limit: int): (Index, Disk)
    decreases |rs|
  {
    if |rs| == 0 then (index, disk)
    else
      var next := Apply(index, disk, rs[0], settings, limit);
      Run(next.0, next.1, rs[1..], settings, limit)
  }

  /** Starting from an empty index, any sequence of uploads and deletes,
      handled one at a time, keeps every address within a positive limit. */
  lemma {:induction false} RunKeepsQuota(index: Index, disk: Disk, rs: seq<Action>, settings: Settings, limit: int)
    requires WithinQuota(index, limit)
    ensures WithinQuota(Run(index, disk, rs, settings, limit).0, limit)
    decreases |rs|
  {
    if |rs| > 0 {
      var next := Apply(index, disk, rs[0], settings, limit);
      match rs[0] {
        case UploadRequest(field, token, now, req, abortAt) =>
          UploadKeepsQuota(index, disk, field, token, now, req, settings, limit, abortAt);
        case DeleteRequest(token, req) =>
          DeleteKeepsQuota(index, disk, token, req, limit);
      }
      RunKeepsQuota(next.0, next.1, rs[1..], settings, limit);
    }
  }

  lemma EmptyIndexWithinQuota(limit: int)
    ensures WithinQuota(map[], limit)
  {
    forall ip: string
      ensures Usage(map[], ip) == 0
    {
      UsageEmpty(ip);
    }
  }
}
