/** The upload index and the per-IP storage it charges
    (web_server.py:317-324, 379-386). */
module Quota {
  import opened Common

  /** One index entry, as `handle_upload` writes it. */
  datatype FileRecord = FileRecord(
    filename: Option<string>,   // the field's file name; `None` (JSON null) when the part had none
    savedName: string,   // the file's name in the upload directory
    size: nat,           // bytes written
    timestamp: int,      // `int(time.time())` at commit
    ip: string,          // the uploader's address
    uploader: string
  )

  /** Token to record. */
  type Index = map<string, FileRecord>

  /** Saved name to the number of bytes in that file. */
  type Disk = map<string, nat>

  /** What one entry counts against `ip`. */
  function Charge(index: Index, ip: string, token: string): nat
    requires token in index
  {
    if index[token].ip == ip then index[token].size else 0
  }

  /** The charges of the entries in `tokens`, added up in no particular
      order. */
  ghost function SumOver(index: Index, ip: string, tokens: set<string>): nat
    requires tokens <= index.Keys
    decreases tokens
  {
    if tokens == {} then 0
    else
      var t :| t in tokens;
      Charge(index, ip, t) + SumOver(index, ip, tokens - {t})
  }

  /** `sum(meta.get("size", 0) for meta in index.values() if meta.get("ip") == ip)` */
  ghost function Usage(index: Index, ip: string): nat
  {
    SumOver(index, ip, index.Keys)
  }

  /** The sum does not depend on the order: any entry can be taken out
      first. */
  lemma {:induction false} SumOverRemove(index: Index, ip: string, tokens: set<string>, x: string)
    requires tokens <= index.Keys && x in tokens
    ensures SumOver(index, ip, tokens) == Charge(index, ip, x) + SumOver(index, ip, tokens - {x})
    decreases tokens
  {
    var t :| t in tokens && SumOver(index, ip, tokens) == Charge(index, ip, t) + SumOver(index, ip, tokens - {t});
    if t != x {
      SumOverRemove(index, ip, tokens - {t}, x);
      SumOverRemove(index, ip, tokens - {x}, t);
      assert tokens - {t} - {x} == tokens - {x} - {t};
    }
  }

  /** The sum reads only the entries it adds up. */
  lemma {:induction false} SumOverFrame(a: Index, b: Index, ip: string, tokens: set<string>)
    requires tokens <= a.Keys && tokens <= b.Keys
    requires forall t :: t in tokens ==> a[t] == b[t]
    ensures SumOver(a, ip, tokens) == SumOver(b, ip, tokens)
    decreases tokens
  {
    if tokens != {} {
      var t :| t in tokens && SumOver(a, ip, tokens) == Charge(a, ip, t) + SumOver(a, ip, tokens - {t});
      SumOverFrame(a, b, ip, tokens - {t});
      SumOverRemove(b, ip, tokens, t);
      assert a[t] == b[t];
      assert Charge(a, ip, t) == Charge(b, ip, t);
    }
  }

  /** Removing an entry uncharges exactly that entry. */
  lemma UsageRemove(index: Index, ip: string, token: string)
    requires token in index
    ensures Usage(index - {token}, ip) == Usage(index, ip) - Charge(index, ip, token)
  {
    SumOverRemove(index, ip, index.Keys, token);
    assert (index - {token}).Keys == index.Keys - {token};
    SumOverFrame(index - {token}, index, ip, index.Keys - {token});
  }

  /** Writing an entry charges the new record in place of any old one at
      the same token. */
  lemma UsageUpdate(index: Index, ip: string, token: string, r: FileRecord)
    ensures Usage(index[token := r], ip)
            == (if token in index then Usage(index, ip) - Charge(index, ip, token) else Usage(index, ip))
               + (if r.ip == ip then r.size else 0)
  {
    var updated := index[token := r];
    SumOverRemove(updated, ip, updated.Keys, token);
    var rest := updated.Keys - {token};
    SumOverFrame(updated, index, ip, rest);
    if token in index {
      SumOverRemove(index, ip, index.Keys, token);
      assert index.Keys - {token} == rest;
    } else {
      assert index.Keys == rest;
    }
  }

  /** Nothing is charged to anyone in an empty index. */
  lemma UsageEmpty(ip: string)
    ensures Usage(map[], ip) == 0
  {
  }

  /** The generator of web_server.py:320-324 as a loop over the entries. */
  method SumUsage(index: Index, ip: string) returns (total: nat)
    ensures total == Usage(index, ip)
  {
    total := 0;
    var remaining := index.Keys;
    while remaining != {}
      invariant remaining <= index.Keys
      invariant total + SumOver(index, ip, remaining) == Usage(index, ip)
      decreases remaining
    {
      var t :| t in remaining;
      SumOverRemove(index, ip, remaining, t);
      if index[t].ip == ip {
        total := total + index[t].size;
      }
      remaining := remaining - {t};
    }
  }

  /** With a positive limit, nobody is charged more than the limit. */
  ghost predicate WithinQuota(index: Index, limit: int)
  {
    limit > 0 ==> forall ip :: Usage(index, ip) <= limit
  }
}
