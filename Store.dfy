/** The upload server's index and upload directory as one object, and the
    handlers of web_server.py that read and change them: `handle_upload`,
    `handle_delete`, `handle_list` and the listing server's
    `handle_listing`. */
module Store {
  import opened Common
  import opened PyStrings
  import opened Config
  import opened Helpers
  import opened Quota
  import opened Uploads
  import opened ListingAuth

  // ---------------------------------------------------------------------------
  // handle_list (web_server.py:469-484)
  // ---------------------------------------------------------------------------

  /** One element of the JSON array `handle_list` answers. */
  datatype ListItem = ListItem(token: string, filename: Option<string>, size: nat, timestamp: int, url: string)

  function ItemOf(settings: Settings, req: Request, token: string, r: FileRecord): ListItem
  {
    ListItem(token, r.filename, r.size, r.timestamp, MakeFileUrl(settings, req, token))
  }

  /** The tokens whose files were uploaded from `ip`. */
  function Mine(index: Index, ip: string): set<string>
  {
    set t | t in index.Keys && index[t].ip == ip
  }

  /** A client's own files are exactly those it may delete. */
  lemma ListedIffDeletable(index: Index, disk: Disk, token: string, req: Request)
    ensures token in Mine(index, ClientIp(req.forwardedFor, req.peerHost))
            <==> DeleteSpec(index, disk, token, req).outcome == Deleted
  {
  }

  /** The file of a successful upload is among the uploader's own files
      afterwards, and so is every file that was among them before. */
  lemma UploadedFileIsListed(index: Index, disk: Disk, f: Field, token: string, now: real,
                             req: Request, settings: Settings, limit: int, abortAt: Option<nat>)
    requires UploadSpec(index, disk, Some(f), token, now, req, settings, limit, abortAt).outcome.Uploaded?
    ensures var ip := ClientIp(req.forwardedFor, req.peerHost);
            Mine(UploadSpec(index, disk, Some(f), token, now, req, settings, limit, abortAt).index, ip)
            == Mine(index, ip) + {token}
  {
    UploadCommitsOneRecord(index, disk, f, token, now, req, settings, limit, abortAt);
    var after := UploadSpec(index, disk, Some(f), token, now, req, settings, limit, abortAt).index;
    MineGrows(index, after, token, ClientIp(req.forwardedFor, req.peerHost));
  }

  lemma MineGrows(index: Index, after: Index, token: string, ip: string)
    requires after.Keys == index.Keys + {token} && token in after && after[token].ip == ip
    requires forall t :: t in index && t != token ==> after[t] == index[t]
    ensures Mine(after, ip) == Mine(index, ip) + {token}
  {
  }

  // ---------------------------------------------------------------------------
  // handle_listing (web_server.py:577-603)
  // ---------------------------------------------------------------------------

  /** One row of the listing. `timestamp` is the sort key; the handler
      removes it from the JSON it sends. */
  datatype Row = Row(filename: string, size: nat, sizeReadable: Readable, uploadedAt: string,
                     fileType: string, url: string, timestamp: int, token: string)

  /** `mimetypes.guess_type(filename)[0] or "不明"`: the column is never
      empty; it shows the guessed type whenever there is one, and the
      placeholder "不明" ("unknown") only when there is none (or the guess
      is that very text). */
  function FileType(guessType: string -> Option<string>, filename: string): (t: string)
    ensures t != ""
    ensures t != "不明" ==> guessType(filename) == Some(t)
    ensures t == "不明" <==> !Truthy(guessType(filename)) || guessType(filename).value == "不明"
  {
    if Truthy(guessType(filename)) then guessType(filename).value else "不明"
  }

  /** The row of one entry that has a file name; `formatTs` is
      `format_timestamp` and `guessType` is `mimetypes.guess_type`. */
  function RowOf(settings: Settings, guessType: string -> Option<string>, formatTs: int -> string,
                 token: string, r: FileRecord): Row
    requires r.filename.Some?
  {
    Row(r.filename.value, r.size, ReadableOf(r.size), formatTs(r.timestamp),
        FileType(guessType, r.filename.value), FilePageUrl(settings, token), r.timestamp, token)
  }

  /** Every entry has a file name. An entry whose name is null makes
      `mimetypes.guess_type(None)` raise a TypeError. */
  predicate AllNamed(index: Index)
  {
    forall t :: t in index ==> index[t].filename.Some?
  }

  /** Once a file part without a file name has been stored, no entry list
      can be built: every listing request that passes the session check
      fails until that entry is deleted. */
  lemma UnnamedUploadBreaksListing(index: Index, disk: Disk, f: Field, token: string, now: real,
                                   req: Request, settings: Settings, limit: int, abortAt: Option<nat>)
    requires f.filename.None?
    requires UploadSpec(index, disk, Some(f), token, now, req, settings, limit, abortAt).outcome.Uploaded?
    ensures !AllNamed(UploadSpec(index, disk, Some(f), token, now, req, settings, limit, abortAt).index)
  {
    UnnamedUploadIsStored(index, disk, f, token, now, req, settings, limit, abortAt);
  }

  /** Newest first. */
  predicate SortedDesc(rows: seq<Row>)
  {
    forall i, j :: 0 <= i < j < |rows| ==> rows[i].timestamp >= rows[j].timestamp
  }

  /** `row` put before the first row that is not newer. */
  function Insert(row: Row, rows: seq<Row>): (r: seq<Row>)
    requires SortedDesc(rows)
    ensures SortedDesc(r)
    ensures multiset(r) == multiset(rows) + multiset{row}
    ensures |r| == |rows| + 1 && (r[0] == row || (|rows| > 0 && r[0] == rows[0]))
  {
    if |rows| == 0 then [row]
    else if row.timestamp >= rows[0].timestamp then
      SortedCons(row, rows);
      [row] + rows
    else
      assert rows == [rows[0]] + rows[1..];
      var tail := Insert(row, rows[1..]);
      SortedCons(rows[0], tail);
      [rows[0]] + tail
  }

  /** A row no older than the first of a sorted list can go in front. */
  lemma SortedCons(row: Row, rows: seq<Row>)
    requires SortedDesc(rows) && (|rows| > 0 ==> row.timestamp >= rows[0].timestamp)
    ensures SortedDesc([row] + rows)
  {
    var r := [row] + rows;
    forall i, j | 0 <= i < j < |r|
      ensures r[i].timestamp >= r[j].timestamp
    {
      if i == 0 && j > 1 {
        assert rows[0].timestamp >= rows[j - 1].timestamp;
      }
    }
  }

  /** `records.sort(key=lambda item: item["timestamp"], reverse=True)` as a
      reference: sorted newest first, and a permutation of its input. */
  function SortByTimestamp(rows: seq<Row>): (r: seq<Row>)
    ensures SortedDesc(r)
    ensures multiset(r) == multiset(rows)
  {
    if |rows| == 0 then []
    else
      assert rows == [rows[0]] + rows[1..];
      Insert(rows[0], SortByTimestamp(rows[1..]))
  }

  /** The answer of `handle_listing`. */
  datatype ListingOutcome =
    | Unauthorized          // 401 {"error": "unauthorized"}
    | ServerError           // the token check or `guess_type` raised; the error middleware answers 500
    | Rows(rows: seq<Row>)

  /** `rows` has one row for each token of `tokens`, the row of that
      token's entry, and nothing else. */
  predicate RowsDescribe(rows: seq<Row>, index: Index, tokens: set<string>, settings: Settings,
                         guessType: string -> Option<string>, formatTs: int -> string)
  {
    && |rows| == |tokens|
    && (forall k :: 0 <= k < |rows| ==>
          rows[k].token in tokens && rows[k].token in index && index[rows[k].token].filename.Some?
          && rows[k] == RowOf(settings, guessType, formatTs, rows[k].token, index[rows[k].token]))
    && (forall t :: t in tokens ==> exists k :: 0 <= k < |rows| && rows[k].token == t)
  }

  lemma RowsDescribeSnoc(rows: seq<Row>, index: Index, tokens: set<string>, settings: Settings,
                         guessType: string -> Option<string>, formatTs: int -> string, t: string)
    requires RowsDescribe(rows, index, tokens, settings, guessType, formatTs)
    requires t in index && t !in tokens && index[t].filename.Some?
    ensures RowsDescribe(rows + [RowOf(settings, guessType, formatTs, t, index[t])], index, tokens + {t},
                         settings, guessType, formatTs)
  {
    var rows' := rows + [RowOf(settings, guessType, formatTs, t, index[t])];
    assert |rows'| == |tokens + {t}|;
    assert forall k :: 0 <= k < |rows'| ==>
             rows'[k].token in tokens + {t} && rows'[k].token in index && index[rows'[k].token].filename.Some?
             && rows'[k] == RowOf(settings, guessType, formatTs, rows'[k].token, index[rows'[k].token]) by {
      forall k | 0 <= k < |rows'|
        ensures rows'[k].token in tokens + {t} && rows'[k].token in index && index[rows'[k].token].filename.Some?
                && rows'[k] == RowOf(settings, guessType, formatTs, rows'[k].token, index[rows'[k].token])
      {
        if k < |rows| {
          assert rows'[k] == rows[k];
        }
      }
    }
    RowsCoverSnoc(rows, tokens, rows'[|rows|]);
  }

  lemma RowsCoverSnoc(rows: seq<Row>, tokens: set<string>, row: Row)
    requires forall t :: t in tokens ==> exists k :: 0 <= k < |rows| && rows[k].token == t
    ensures forall t :: t in tokens + {row.token} ==> exists k :: 0 <= k < |rows + [row]| && (rows + [row])[k].token == t
  {
    var rows' := rows + [row];
    forall u | u in tokens + {row.token}
      ensures exists k :: 0 <= k < |rows'| && rows'[k].token == u
    {
      if u == row.token {
        assert rows'[|rows|].token == u;
      } else {
        var k :| 0 <= k < |rows| && rows[k].token == u;
        assert rows'[k].token == u;
      }
    }
  }

  /** A permutation of a description describes the same entries. */
  lemma PermutationDescribes(a: seq<Row>, b: seq<Row>, index: Index, tokens: set<string>, settings: Settings,
                             guessType: string -> Option<string>, formatTs: int -> string)
    requires multiset(a) == multiset(b)
    requires RowsDescribe(a, index, tokens, settings, guessType, formatTs)
    ensures RowsDescribe(b, index, tokens, settings, guessType, formatTs)
  {
    assert |a| == |multiset(a)| == |multiset(b)| == |b|;
    forall k | 0 <= k < |b|
      ensures b[k].token in tokens && b[k].token in index && index[b[k].token].filename.Some?
              && b[k] == RowOf(settings, guessType, formatTs, b[k].token, index[b[k].token])
    {
      assert b[k] in multiset(a);
      var j :| 0 <= j < |a| && a[j] == b[k];
    }
    forall t | t in tokens
      ensures exists k :: 0 <= k < |b| && b[k].token == t
    {
      var j :| 0 <= j < |a| && a[j].token == t;
      assert a[j] in multiset(b);
      var k :| 0 <= k < |b| && b[k] == a[j];
    }
  }

  /** `items` has one item for each token of `tokens`, the item of that
      token's entry, and nothing else. */
  predicate ItemsDescribe(items: seq<ListItem>, index: Index, tokens: set<string>, settings: Settings, req: Request)
  {
    && |items| == |tokens|
    && (forall k :: 0 <= k < |items| ==>
          items[k].token in tokens && items[k].token in index
          && items[k] == ItemOf(settings, req, items[k].token, index[items[k].token]))
    && (forall t :: t in tokens ==> exists k :: 0 <= k < |items| && items[k].token == t)
  }

  lemma ItemsDescribeSnoc(items: seq<ListItem>, index: Index, tokens: set<string>, settings: Settings,
                          req: Request, t: string)
    requires ItemsDescribe(items, index, tokens, settings, req)
    requires t in index && t !in tokens
    ensures ItemsDescribe(items + [ItemOf(settings, req, t, index[t])], index, tokens + {t}, settings, req)
  {
    var items' := items + [ItemOf(settings, req, t, index[t])];
    assert |items'| == |tokens + {t}|;
    forall k | 0 <= k < |items'|
      ensures items'[k].token in tokens + {t} && items'[k].token in index
              && items'[k] == ItemOf(settings, req, items'[k].token, index[items'[k].token])
    {
      if k < |items| {
        assert items'[k] == items[k];
      }
    }
    ItemsCoverSnoc(items, tokens, items'[|items|]);
  }

  lemma ItemsCoverSnoc(items: seq<ListItem>, tokens: set<string>, item: ListItem)
    requires forall t :: t in tokens ==> exists k :: 0 <= k < |items| && items[k].token == t
    ensures forall t :: t in tokens + {item.token} ==>
              exists k :: 0 <= k < |items + [item]| && (items + [item])[k].token == t
  {
    var items' := items + [item];
    forall u | u in tokens + {item.token}
      ensures exists k :: 0 <= k < |items'| && items'[k].token == u
    {
      if u == item.token {
        assert items'[|items|].token == u;
      } else {
        var k :| 0 <= k < |items| && items[k].token == u;
        assert items'[k].token == u;
      }
    }
  }

  /** One turn of `handle_list`'s loop: the entry `t` is added when it is
      the client's own. */
  lemma ListStep(items: seq<ListItem>, index: Index, ip: string, remaining: set<string>, t: string,
                 settings: Settings, req: Request)
    requires remaining <= index.Keys && t in remaining
    requires ItemsDescribe(items, index, Mine(index, ip) - remaining, settings, req)
    ensures ItemsDescribe(if index[t].ip == ip then items + [ItemOf(settings, req, t, index[t])] else items,
                          index, Mine(index, ip) - (remaining - {t}), settings, req)
  {
    var mine := Mine(index, ip);
    if index[t].ip == ip {
      ItemsDescribeSnoc(items, index, mine - remaining, settings, req, t);
      assert mine - (remaining - {t}) == (mine - remaining) + {t};
    } else {
      assert mine - (remaining - {t}) == mine - remaining;
    }
  }

  /** One turn of `handle_listing`'s loop. */
  lemma ListingStep(rows: seq<Row>, index: Index, remaining: set<string>, t: string, settings: Settings,
                    guessType: string -> Option<string>, formatTs: int -> string)
    requires remaining <= index.Keys && t in remaining && index[t].filename.Some?
    requires RowsDescribe(rows, index, index.Keys - remaining, settings, guessType, formatTs)
    ensures RowsDescribe(rows + [RowOf(settings, guessType, formatTs, t, index[t])], index,
                         index.Keys - (remaining - {t}), settings, guessType, formatTs)
  {
    RowsDescribeSnoc(rows, index, index.Keys - remaining, settings, guessType, formatTs, t);
    assert index.Keys - (remaining - {t}) == (index.Keys - remaining) + {t};
  }

  /** Removing a partly written file leaves the disk as it was before. */
  lemma DiscardPartial(disk: Disk, saved: string, size: nat)
    ensures disk[saved := size] - {saved} == disk - {saved}
  {
  }

  /** Writing a file again replaces its size. */
  lemma Overwrite(disk: Disk, saved: string, size: nat, size': nat)
    ensures disk[saved := size][saved := size'] == disk[saved := size']
  {
  }

  /** The upload index and the upload directory. */
  class Store {
    var index: Index
    var disk: Disk

    /** `handle_upload` (web_server.py:304-390). */
    method Upload(field: Option<Field>, token: string, now: real, req: Request, settings: Settings,
                  limit: int, abortAt: Option<nat>) returns (outcome: UploadOutcome)
      modifies this
      ensures Step(outcome, index, disk)
              == UploadSpec(old(index), old(disk), field, token, now, req, settings, limit, abortAt)
    {
      if field.None? || field.value.name != "file" {
        return MissingField;
      }
      var f := field.value;
      var saved := SavedName(token, f.filename);
      var ip := ClientIp(req.forwardedFor, req.peerHost);
      var usage: nat := 0;
      if limit > 0 {
        usage := SumUsage(index, ip);
        if usage >= limit {
          return QuotaFull(limit, usage);
        }
      }
      UploadSpecPastPreflight(index, disk, f, token, now, req, settings, limit, abortAt, usage);
      var end := WriteBody(saved, f.chunks, usage, limit, abortAt);
      match end
      case Interrupted(_) =>
        DiscardPartial(old(disk), saved, end.size);
        disk := disk - {saved};
        return Failed;
      case QuotaHit(_, _) =>
        DiscardPartial(old(disk), saved, end.size);
        disk := disk - {saved};
        return QuotaExceeded(limit, usage, NonNegative(limit - usage));
      case Completed(size) =>
        index := index[token := FileRecord(f.filename, saved, size, Trunc(now), ip, "web")];
        outcome := Uploaded(MakeFileUrl(settings, req, token), token);
    }

    /** The write loop of web_server.py:341-352: the file is created empty,
        and each non-empty chunk read is appended to it until the body ends,
        the total takes `usage` over a positive `limit`, or the read at
        `abortAt` raises. The loop ends as `ReadLoop` says, with the file
        holding every byte written. */
    method WriteBody(saved: string, chunks: seq<nat>, usage: nat, limit: int, abortAt: Option<nat>)
      returns (end: LoopEnd)
      modifies this
      ensures end == ReadLoop(chunks, 0, 0, usage, limit, abortAt)
      ensures index == old(index) && disk == old(disk)[saved := end.size]
    {
      disk := disk[saved := 0];
      var size: nat := 0;
      var i: nat := 0;
      while true
        invariant i <= |chunks|
        invariant ReadLoop(chunks, i, size, usage, limit, abortAt) == ReadLoop(chunks, 0, 0, usage, limit, abortAt)
        invariant index == old(index) && disk == old(disk)[saved := size]
        decreases |chunks| - i
      {
        if abortAt == Some(i) {
          return Interrupted(size);
        }
        if i == |chunks| || chunks[i] == 0 {
          return Completed(size);
        }
        Overwrite(old(disk), saved, size, size + chunks[i]);
        size := size + chunks[i];
        disk := disk[saved := size];
        if limit > 0 && usage + size > limit {
          return QuotaHit(size, chunks[i]);
        }
        ReadLoopStep(chunks, i, size - chunks[i], usage, limit, abortAt);
        i := i + 1;
      }
    }

    /** `handle_delete` (web_server.py:486-500). */
    method Delete(token: string, req: Request) returns (outcome: DeleteOutcome)
      modifies this
      ensures Step(outcome, index, disk) == DeleteSpec(old(index), old(disk), token, req)
    {
      if token !in index {
        return NotFound;
      }
      if index[token].ip != ClientIp(req.forwardedFor, req.peerHost) {
        return Forbidden;
      }
      var saved := index[token].savedName;
      if saved in disk {
        disk := disk - {saved};
      } else {
        assert disk - {saved} == disk;
      }
      index := index - {token};
      outcome := Deleted;
    }

    /** `handle_list` (web_server.py:469-484): the client's own files, each
      once, in no particular order. */
    method List(req: Request, settings: Settings) returns (items: seq<ListItem>)
      ensures ItemsDescribe(items, index, Mine(index, ClientIp(req.forwardedFor, req.peerHost)), settings, req)
    {
      var ip := ClientIp(req.forwardedFor, req.peerHost);
      ghost var mine := Mine(index, ip);
      items := [];
      var remaining := index.Keys;
      assert mine - remaining == {};
      while remaining != {}
        invariant remaining <= index.Keys
        invariant ItemsDescribe(items, index, mine - remaining, settings, req)
        decreases remaining
      {
        var t :| t in remaining;
        ListStep(items, index, ip, remaining, t, settings, req);
        if index[t].ip == ip {
          items := items + [ItemOf(settings, req, t, index[t])];
        }
        remaining := remaining - {t};
      }
      assert mine - remaining == mine;
    }

    /** The loop of web_server.py:581-598: one row per entry of the index,
        in no particular order. The first entry without a file name stops
        it: `mimetypes.guess_type(None)` raises. */
    method CollectRows(settings: Settings, guessType: string -> Option<string>, formatTs: int -> string)
      returns (rows: Option<seq<Row>>)
      ensures rows.None? <==> !AllNamed(index)
      ensures rows.Some? ==> RowsDescribe(rows.value, index, index.Keys, settings, guessType, formatTs)
    {
      var collected := [];
      var remaining := index.Keys;
      assert index.Keys - remaining == {};
      while remaining != {}
        invariant remaining <= index.Keys
        invariant forall t :: t in index.Keys - remaining ==> index[t].filename.Some?
        invariant RowsDescribe(collected, index, index.Keys - remaining, settings, guessType, formatTs)
        decreases remaining
      {
        var t :| t in remaining;
        var meta := index[t];
        if meta.filename.None? {
          return None;
        }
        var readable := HumanReadableSize(Some(meta.size));
        var row := Row(meta.filename.value, meta.size, readable, formatTs(meta.timestamp),
                       FileType(guessType, meta.filename.value), FilePageUrl(settings, t), meta.timestamp, t);
        assert row == RowOf(settings, guessType, formatTs, t, index[t]);
        ListingStep(collected, index, remaining, t, settings, guessType, formatTs);
        collected := collected + [row];
        remaining := remaining - {t};
      }
      assert index.Keys - remaining == index.Keys;
      rows := Some(collected);
    }

    /** `handle_listing` (web_server.py:577-603) with the listing server's
        users `auth`, the request's session cookie and the clock `now`. */
    method Listing(auth: AuthState, cookie: Option<string>, now: real, settings: Settings,
                   guessType: string -> Option<string>, formatTs: int -> string) returns (outcome: ListingOutcome)
      ensures var check := IsAuthenticated(auth.authEnabled, auth.allowed, auth.ttl, auth.sign, cookie, now);
              && (outcome.Unauthorized? <==> check == Rejected)
              && (outcome.ServerError? <==> check == CompareRaises || (check == Accepted && !AllNamed(index)))
              && (outcome.Rows? ==>
                    SortedDesc(outcome.rows) && RowsDescribe(outcome.rows, index, index.Keys, settings, guessType, formatTs))
    {
      var check := IsAuthenticated(auth.authEnabled, auth.allowed, auth.ttl, auth.sign, cookie, now);
      if check == Rejected {
        return Unauthorized;
      } else if check == CompareRaises {
        return ServerError;
      }
      var rows := CollectRows(settings, guessType, formatTs);
      if rows.None? {
        return ServerError;
      }
      var sorted := SortByTimestamp(rows.value);
      PermutationDescribes(rows.value, sorted, index, index.Keys, settings, guessType, formatTs);
      outcome := Rows(sorted);
    }
  }
}
