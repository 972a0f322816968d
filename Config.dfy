/** config.py: the settings the core reads, the credentials-file parser
    `_load_credentials_from_file`, and the assembly of `LISTING_CREDENTIALS`
    from the environment pair and the file. A decoded JSON document is a
    `Json` value; a file that is missing or does not decode is `None`. */
module Config {
  import opened Common
  import opened PyStrings

  /** The environment-level settings the modelled functions read. */
  datatype Settings = Settings(
    externalUrl: Option<string>,   // EXTERNAL_URL
    httpHost: string,              // HTTP_HOST
    httpPort: int                  // HTTP_PORT
  )

  /** A value produced by `json.loads`. Numbers are integers; an object lists
      its members in document order. */
  datatype Json =
    | JNull
    | JBool(b: bool)
    | JInt(i: int)
    | JString(s: string)
    | JArray(items: seq<Json>)
    | JObject(members: seq<(string, Json)>)

  /** `bool(value)` */
  predicate JsonTruthy(j: Json)
  {
    match j
    case JNull => false
    case JBool(b) => b
    case JInt(i) => i != 0
    case JString(s) => s != ""
    case JArray(items) => |items| > 0
    case JObject(members) => |members| > 0
  }

  predicate HasKey(members: seq<(string, Json)>, key: string)
  {
    exists k :: 0 <= k < |members| && members[k].0 == key
  }

  /** The `k`-th member is the last one named `key`. */
  predicate IsLastMember(members: seq<(string, Json)>, key: string, k: int)
  {
    0 <= k < |members| && members[k].0 == key && forall j :: k < j < |members| ==> members[j].0 != key
  }

  /** `v` is what the decoded dict holds for `key`: the value of the last
      member named `key`, or `None` (JSON null) when there is none. */
  predicate DictValue(members: seq<(string, Json)>, key: string, v: Json)
  {
    if HasKey(members, key) then exists k :: 0 <= k < |members| && IsLastMember(members, key, k) && members[k].1 == v
    else v == JNull
  }

  /** `obj.get(key)` with a missing key read as `None` (JSON null). When a key
      repeats, the decoded dict holds its last value. */
  function Get(members: seq<(string, Json)>, key: string): (v: Json)
    ensures DictValue(members, key, v)
    ensures v != JNull ==> exists k :: 0 <= k < |members| && members[k] == (key, v)
  {
    if |members| == 0 then JNull
    else if members[|members| - 1].0 == key then
      assert IsLastMember(members, key, |members| - 1);
      members[|members| - 1].1
    else
      var v := Get(members[..|members| - 1], key);
      DictValueSnoc(members, key, v);
      v
  }

  /** A last member with another name does not change the value of `key`. */
  lemma DictValueSnoc(members: seq<(string, Json)>, key: string, v: Json)
    requires |members| > 0 && members[|members| - 1].0 != key
    requires DictValue(members[..|members| - 1], key, v)
    ensures DictValue(members, key, v)
  {
    var init := members[..|members| - 1];
    if HasKey(init, key) {
      var k :| 0 <= k < |init| && IsLastMember(init, key, k) && init[k].1 == v;
      forall j | k < j < |members|
        ensures members[j].0 != key
      {
        if j < |init| {
          assert members[j] == init[j];
        }
      }
      assert members[k] == init[k];
      assert IsLastMember(members, key, k);
    } else {
      forall k | 0 <= k < |members|
        ensures members[k].0 != key
      {
        if k < |init| {
          assert members[k] == init[k];
        }
      }
    }
  }

  /** A key has one value: the last member named `key` is unique. */
  lemma DictValueUnique(members: seq<(string, Json)>, key: string, v: Json, w: Json)
    requires DictValue(members, key, v) && DictValue(members, key, w)
    ensures v == w
  {
    if HasKey(members, key) {
      var k :| 0 <= k < |members| && IsLastMember(members, key, k) && members[k].1 == v;
      var l :| 0 <= l < |members| && IsLastMember(members, key, l) && members[l].1 == w;
      assert members[k].0 == key && members[l].0 == key;
    }
  }

  /** Python's `a or b` */
  function Or(a: Json, b: Json): Json
  {
    if JsonTruthy(a) then a else b
  }

  /** `repr(value)`; strings are quoted without escaping. */
  function PyRepr(j: Json): (r: string)
    ensures |r| > 0
    decreases j
  {
    match j
    case JNull => "None"
    case JBool(b) => if b then "True" else "False"
    case JInt(i) => IntToString(i)
    case JString(s) => "'" + s + "'"
    case JArray(items) =>
      "[" + Join(seq(|items|, k requires 0 <= k < |items| => PyRepr(items[k])), ", ") + "]"
    case JObject(members) =>
      "{" + Join(seq(|members|, k requires 0 <= k < |members| =>
                       "'" + members[k].0 + "': " + PyRepr(members[k].1)), ", ") + "}"
  }

  /** `str(value)`: a string is itself, everything else its repr. A truthy
      value never prints as the empty string. */
  function PyStr(j: Json): (s: string)
    ensures JsonTruthy(j) ==> s != ""
  {
    if j.JString? then j.s else PyRepr(j)
  }

  /** The entries a credentials document lists (config.py:59-67): the `users`
      array of an object that has one, any other object as a single entry,
      the elements of a top-level array, and nothing otherwise. */
  function Records(data: Json): seq<Json>
  {
    match data
    case JObject(members) =>
      if HasKey(members, "users") && Get(members, "users").JArray? then Get(members, "users").items
      else [data]
    case JArray(items) => items
    case _ => []
  }

  /** The pair one entry contributes, if any (config.py:68-74). */
  function EntryCredential(entry: Json): (c: Option<(string, string)>)
    ensures c.Some? ==> entry.JObject? && c.value.0 != "" && c.value.1 != ""
  {
    match entry
    case JObject(members) =>
      var username := Or(Get(members, "username"), Get(members, "user"));
      var password := Or(Get(members, "password"), Get(members, "pass"));
      if JsonTruthy(username) && JsonTruthy(password) then Some((PyStr(username), PyStr(password)))
      else None
    case _ => None
  }

  /** What one entry appends to the result: one pair or nothing. */
  function Contribution(entry: Json): (users: seq<(string, string)>)
    ensures |users| <= 1
  {
    match EntryCredential(entry) case Some(c) => [c] case None => []
  }

  /** The pairs a list of entries yields, in input order. */
  function Credentials(records: seq<Json>): (users: seq<(string, string)>)
    ensures |users| <= |records|
    ensures forall k :: 0 <= k < |users| ==> users[k].0 != "" && users[k].1 != ""
  {
    if |records| == 0 then []
    else Credentials(records[..|records| - 1]) + Contribution(records[|records| - 1])
  }

  /** `_load_credentials_from_file`: `None` stands for a missing file or one
      that does not decode. */
  function LoadCredentials(file: Option<Json>): seq<(string, string)>
  {
    match file
    case None => []
    case Some(data) => Credentials(Records(data))
  }

  lemma CredentialsSnoc(records: seq<Json>, i: nat)
    requires i < |records|
    ensures Credentials(records[..i + 1]) == Credentials(records[..i]) + Contribution(records[i])
  {
    assert records[..i + 1][..i] == records[..i];
  }

  /** One turn of the loop: the entry's pair, if any, is appended. */
  lemma CollectStep(records: seq<Json>, i: nat)
    requires i < |records|
    ensures var pair := EntryCredential(records[i]);
            (if pair.Some? then Credentials(records[..i]) + [pair.value] else Credentials(records[..i]))
            == Credentials(records[..i + 1])
  {
    CredentialsSnoc(records, i);
  }

  /** The loop of config.py:68-75 over the entries. */
  method CollectCredentials(records: seq<Json>) returns (users: seq<(string, string)>)
    ensures users == Credentials(records)
  {
    users := [];
    var i := 0;
    while i < |records|
      invariant 0 <= i <= |records|
      invariant users == Credentials(records[..i])
    {
      var pair := EntryCredential(records[i]);
      CollectStep(records, i);
      if pair.Some? {
        users := users + [pair.value];
      }
      i := i + 1;
    }
    assert users == Credentials(records) by {
      assert records[..i] == records;
    }
  }

  /** config.py:51-75 */
  method LoadCredentialsFromFile(file: Option<Json>) returns (users: seq<(string, string)>)
    ensures users == LoadCredentials(file)
  {
    if file.None? {
      return [];
    }
    users := CollectCredentials(Records(file.value));
  }

  /** The environment pair, when both halves are set and non-empty. */
  function EnvPair(envUser: Option<string>, envPass: Option<string>): seq<(string, string)>
  {
    if Truthy(envUser) && Truthy(envPass) then [(envUser.value, envPass.value)] else []
  }

  /** config.py:78-83: `LISTING_CREDENTIALS` is the environment pair followed by
      the file's pairs; when it is non-empty its first pair becomes the primary
      `LISTING_USERNAME`/`LISTING_PASSWORD`, otherwise those keep the
      environment's values. */
  method AssembleCredentials(envUser: Option<string>, envPass: Option<string>, file: Option<Json>)
    returns (credentials: seq<(string, string)>, username: Option<string>, password: Option<string>)
    ensures credentials == EnvPair(envUser, envPass) + LoadCredentials(file)
    ensures Truthy(envUser) && Truthy(envPass) ==> credentials[0] == (envUser.value, envPass.value)
    ensures |credentials| > 0 ==> username == Some(credentials[0].0) && password == Some(credentials[0].1)
    ensures |credentials| == 0 ==> username == envUser && password == envPass
  {
    credentials := [];
    if Truthy(envUser) && Truthy(envPass) {
      credentials := credentials + [(envUser.value, envPass.value)];
    }
    assert credentials == EnvPair(envUser, envPass);
    var fromFile := LoadCredentialsFromFile(file);
    credentials := credentials + fromFile;
    username, password := envUser, envPass;
    if |credentials| > 0 {
      username, password := Some(credentials[0].0), Some(credentials[0].1);
    }
  }

  // ---------------------------------------------------------------------------
  // Properties of the parser
  // ---------------------------------------------------------------------------

  /** Parsing distributes over concatenation: each entry contributes on its
      own, in order. */
  lemma {:induction false} CredentialsAppend(a: seq<Json>, b: seq<Json>)
    ensures Credentials(a + b) == Credentials(a) + Credentials(b)
    decreases |b|
  {
    if |b| == 0 {
      assert a + b == a;
    } else {
      var last := b[|b| - 1];
      assert (a + b)[..|a + b| - 1] == a + b[..|b| - 1];
      CredentialsAppend(a, b[..|b| - 1]);
    }
  }

  /** An entry that is not an object is skipped. */
  lemma SkipsNonObjects(a: seq<Json>, entry: Json, b: seq<Json>)
    requires !entry.JObject?
    ensures Credentials(a + [entry] + b) == Credentials(a + b)
  {
    assert EntryCredential(entry) == None;
    assert Credentials([entry]) == [] by {
      assert [entry][..0] == [];
    }
    CredentialsAppend(a, [entry]);
    CredentialsAppend(a + [entry], b);
    CredentialsAppend(a, b);
  }

  /** Every pair comes from some entry of the input. */
  lemma {:induction false} CredentialsComeFromEntries(records: seq<Json>)
    ensures forall k :: 0 <= k < |Credentials(records)| ==>
      exists i :: 0 <= i < |records| && EntryCredential(records[i]) == Some(Credentials(records)[k])
    decreases |records|
  {
    if |records| > 0 {
      var init := records[..|records| - 1];
      var last := records[|records| - 1];
      var users := Credentials(records);
      CredentialsComeFromEntries(init);
      assert users == Credentials(init) + Contribution(last);
      forall k | 0 <= k < |users|
        ensures exists i :: 0 <= i < |records| && EntryCredential(records[i]) == Some(users[k])
      {
        if k < |Credentials(init)| {
          var i :| 0 <= i < |init| && EntryCredential(init[i]) == Some(Credentials(init)[k]);
          assert records[i] == init[i];
          assert users[k] == Credentials(init)[k];
        } else {
          assert users[k] == Contribution(last)[0];
          assert EntryCredential(records[|records| - 1]) == Some(users[k]);
        }
      }
    } else {
      assert Credentials(records) == [];
    }
  }

  /** When every entry qualifies, each yields exactly one pair, in order:
      the result is the sequence of the entries' own pairs. */
  lemma {:induction false} EveryQualifyingEntryYieldsOnePair(records: seq<Json>, pairs: seq<(string, string)>)
    requires |pairs| == |records|
    requires forall i :: 0 <= i < |records| ==> EntryCredential(records[i]) == Some(pairs[i])
    ensures Credentials(records) == pairs
    decreases |records|
  {
    if |records| > 0 {
      var n := |records| - 1;
      EveryQualifyingEntryYieldsOnePair(records[..n], pairs[..n]);
      assert Contribution(records[n]) == [pairs[n]];
      SplitLast(pairs);
    }
  }

  /** The four document shapes (config.py:59-67) and the two failure cases
      (config.py:52-57). */
  lemma DocumentShapes(data: Json)
    ensures LoadCredentials(None) == []
    ensures data.JArray? ==> LoadCredentials(Some(data)) == Credentials(data.items)
    ensures data.JObject? && Get(data.members, "users").JArray? ==>
      LoadCredentials(Some(data)) == Credentials(Get(data.members, "users").items)
    ensures data.JObject? && !Get(data.members, "users").JArray? ==>
      LoadCredentials(Some(data)) == Credentials([data])
    ensures !data.JObject? && !data.JArray? ==> LoadCredentials(Some(data)) == []
  {
  }

  /** The rule for one entry, stated on what its decoded dict holds: the
      name is `username` unless that is falsy, then `user`; the password is
      `password` unless that is falsy, then `pass`; the entry yields a pair
      exactly when both chosen values are truthy, and the pair is their
      `str()`. */
  lemma EntryCredentialRule(members: seq<(string, Json)>, username: Json, user: Json, password: Json, pass: Json)
    requires DictValue(members, "username", username) && DictValue(members, "user", user)
    requires DictValue(members, "password", password) && DictValue(members, "pass", pass)
    ensures var name := if JsonTruthy(username) then username else user;
            var secret := if JsonTruthy(password) then password else pass;
            EntryCredential(JObject(members))
            == if JsonTruthy(name) && JsonTruthy(secret) then Some((PyStr(name), PyStr(secret))) else None
  {
    DictValueUnique(members, "username", username, Get(members, "username"));
    DictValueUnique(members, "user", user, Get(members, "user"));
    DictValueUnique(members, "password", password, Get(members, "password"));
    DictValueUnique(members, "pass", pass, Get(members, "pass"));
  }

  /** Examples of the rule: `user` stands in for a missing or falsy
      `username`, `pass` for a missing `password`, non-string values are
      stringified, and a null password drops the entry. */
  lemma FallbackToUserAndPass()
    ensures EntryCredential(JObject([("user", JString("alice")), ("pass", JString("pw"))]))
            == Some(("alice", "pw"))
  {
    var ms := [("user", JString("alice")), ("pass", JString("pw"))];
    assert Get(ms, "username") == JNull;
    assert Get(ms, "user") == JString("alice");
    assert Get(ms, "password") == JNull;
    assert Get(ms, "pass") == JString("pw");
  }

  lemma FalsyUsernameFallsBack(user: string)
    requires user != ""
    ensures EntryCredential(JObject([("username", JString("")), ("user", JString(user)),
                                     ("password", JString("x"))]))
            == Some((user, "x"))
  {
    var ms := [("username", JString("")), ("user", JString(user)), ("password", JString("x"))];
    FalsyUsernameLookups(ms, user);
    var username := Or(Get(ms, "username"), Get(ms, "user"));
    var password := Or(Get(ms, "password"), Get(ms, "pass"));
    assert username == JString(user) && password == JString("x");
  }

  lemma FalsyUsernameLookups(ms: seq<(string, Json)>, user: string)
    requires ms == [("username", JString("")), ("user", JString(user)), ("password", JString("x"))]
    ensures Get(ms, "username") == JString("") && Get(ms, "user") == JString(user)
    ensures Get(ms, "password") == JString("x")
  {
    var front := ms[..2];
    assert front[..1] == [("username", JString(""))];
    assert Get(ms, "user") == Get(front, "user");
    assert Get(ms, "username") == Get(front, "username");
  }

  lemma NonStringFieldsAreStringified()
    ensures EntryCredential(JObject([("username", JInt(7)), ("password", JBool(true))]))
            == Some(("7", "True"))
  {
    var ms := [("username", JInt(7)), ("password", JBool(true))];
    assert Get(ms, "username") == JInt(7);
    assert Get(ms, "password") == JBool(true);
    assert PyStr(JInt(7)) == IntToString(7) == "7";
  }

  lemma MissingPasswordIsDropped()
    ensures EntryCredential(JObject([("username", JString("carol")), ("password", JNull)])) == None
  {
    var ms := [("username", JString("carol")), ("password", JNull)];
    assert Get(ms, "password") == JNull;
    assert Get(ms, "pass") == JNull;
  }
}
