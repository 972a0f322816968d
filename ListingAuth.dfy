/** web_server.py:49-137: the listing site's users, its signed session
    tokens and the checks made on every listing request. */
module ListingAuth {
  import opened Common
  import opened PyStrings
  import opened Config

  // ---------------------------------------------------------------------------
  // Signing (web_server.py:52-57)
  // ---------------------------------------------------------------------------

  const HexChars: string := "0123456789abcdef"

  predicate IsLowerHex(s: string)
  {
    forall i :: 0 <= i < |s| ==> s[i] in HexChars
  }

  /** What `hmac.new(...).hexdigest()` returns. The HMAC-SHA256 of RFC 2104
      under the session secret is a parameter `sign` of this type. */
  type HexDigest = s: string | IsLowerHex(s) witness ""

  predicate IsAscii(s: string)
  {
    forall i :: 0 <= i < |s| ==> s[i] as int < 128
  }

  /** The outcome of a token check. `hmac.compare_digest` raises on a
      non-ASCII `str`, which the error middleware turns into a 500. */
  datatype TokenCheck = Accepted | Rejected | CompareRaises

  // ---------------------------------------------------------------------------
  // Session tokens (web_server.py:60-84)
  // ---------------------------------------------------------------------------

  /** `create_session_token(username)` at wall-clock time `now`: the user
      name, then exactly two more bars than the name has. */
  function CreateSessionToken(sign: string -> HexDigest, username: string, now: real): (token: string)
    ensures StartsWith(token, username + "|")
    ensures multiset(token)['|'] == multiset(username)['|'] + 2
  {
    var issued := IntToString(Trunc(now));
    var payload := username + "|" + issued;
    var signature := sign(payload);
    NumeralAvoids(Trunc(now), '|');
    NoBarInDigest(signature);
    var token := payload + "|" + signature;
    assert token[..|username| + 1] == username + "|";
    assert multiset(token) == multiset(username) + multiset{'|'} + multiset(issued)
                              + multiset{'|'} + multiset(signature);
    token
  }

  /** `validate_session_token(token)` against the current users, with the
      configured TTL (0 disables expiry) at wall-clock time `now`. */
  function ValidateSessionToken(allowed: map<string, string>, ttl: nat, sign: string -> HexDigest,
                                token: string, now: real): (r: TokenCheck)
    ensures r != Rejected ==> |SplitOn(token, "|")| == 3 && SplitOn(token, "|")[0] in allowed
    ensures r == CompareRaises ==> !IsAscii(SplitOn(token, "|")[2])
  {
    var parts := SplitOn(token, "|");
    if |parts| != 3 then Rejected
    else
      var username, issuedText, signature := parts[0], parts[1], parts[2];
      if username !in allowed then Rejected
      else if !IsAscii(signature) then CompareRaises
      else if sign(username + "|" + issuedText) != signature then Rejected
      else match ParseInt(issuedText)
        case None => Rejected
        case Some(issued) =>
          if ttl != 0 && now - issued as real > ttl as real then Rejected else Accepted
  }

  lemma NoBarInDigest(d: HexDigest)
    ensures '|' !in d && IsAscii(d)
  {
    assert forall k :: 0 <= k < |d| ==> d[k] in HexChars;
  }

  /** A token is cut into exactly its user, its issue time and its
      signature when the user name has no `|`. */
  lemma SplitToken(sign: string -> HexDigest, username: string, now: real)
    requires '|' !in username
    ensures SplitOn(CreateSessionToken(sign, username, now), "|")
            == [username, IntToString(Trunc(now)), sign(username + "|" + IntToString(Trunc(now)))]
  {
    var issued := IntToString(Trunc(now));
    var signature := sign(username + "|" + issued);
    NumeralAvoids(Trunc(now), '|');
    NoBarInDigest(signature);
    SplitThree(username, issued, signature);
  }

  /** Three bar-free texts joined by bars split back into those three. */
  lemma SplitThree(a: string, b: string, c: string)
    requires '|' !in a && '|' !in b && '|' !in c
    ensures SplitOn(a + "|" + b + "|" + c, "|") == [a, b, c]
  {
    assert a + "|" + b + "|" + c == a + ['|'] + (b + ['|'] + c);
    SplitOnCharConcat(a, '|', b + ['|'] + c);
    SplitOnCharConcat(b, '|', c);
    SplitOnCharAbsent(c, '|');
  }

  /** Round trip: a token made for a current user whose name has no `|` is
      accepted exactly while it is not older than the TTL (or the TTL is 0). */
  lemma SessionRoundTrip(allowed: map<string, string>, ttl: nat, sign: string -> HexDigest,
                         username: string, issuedAt: real, now: real)
    requires username in allowed && '|' !in username
    ensures ValidateSessionToken(allowed, ttl, sign, CreateSessionToken(sign, username, issuedAt), now) == Accepted
            <==> ttl == 0 || now - Trunc(issuedAt) as real <= ttl as real
  {
    SplitToken(sign, username, issuedAt);
    NoBarInDigest(sign(username + "|" + IntToString(Trunc(issuedAt))));
    ParseIntToString(Trunc(issuedAt));
  }

  /** A user whose name contains `|` can never hold a valid session: the
      token splits into more than three parts. */
  lemma BarInUserNameNeverValidates(allowed: map<string, string>, ttl: nat, sign: string -> HexDigest,
                                    username: string, issuedAt: real, now: real)
    requires '|' in username
    ensures ValidateSessionToken(allowed, ttl, sign, CreateSessionToken(sign, username, issuedAt), now) == Rejected
  {
    var token := CreateSessionToken(sign, username, issuedAt);
    var issued := IntToString(Trunc(issuedAt));
    var signature := sign(username + "|" + issued);
    assert token == username + "|" + issued + "|" + signature;
    assert multiset(token)['|'] >= multiset(username)['|'] + 2 by {
      assert multiset(token) == multiset(username) + multiset{'|'} + multiset(issued)
                                + multiset{'|'} + multiset(signature);
    }
    assert multiset(username)['|'] >= 1;
    SplitOnChar(token, '|');
  }

  /** A token whose number of `|` is not two is rejected without looking
      further. */
  lemma MalformedTokenRejected(allowed: map<string, string>, ttl: nat, sign: string -> HexDigest,
                               token: string, now: real)
    requires multiset(token)['|'] != 2
    ensures ValidateSessionToken(allowed, ttl, sign, token, now) == Rejected
  {
    SplitOnChar(token, '|');
  }

  /** Every accepted token is `user|issued|sign(user|issued)` for a current
      user: nothing unsigned gets through. */
  lemma AcceptedTokenIsSigned(allowed: map<string, string>, ttl: nat, sign: string -> HexDigest,
                              token: string, now: real)
    requires ValidateSessionToken(allowed, ttl, sign, token, now) == Accepted
    ensures var parts := SplitOn(token, "|");
            |parts| == 3 && parts[0] in allowed
            && token == parts[0] + "|" + parts[1] + "|" + sign(parts[0] + "|" + parts[1])
  {
    var parts := SplitOn(token, "|");
    JoinSplitRoundTrip(token, "|");
    assert parts[1..][1..] == [parts[2]];
    assert Join(parts[1..], "|") == parts[1] + "|" + Join(parts[1..][1..], "|");
    assert Join(parts, "|") == parts[0] + "|" + Join(parts[1..], "|");
  }

  // ---------------------------------------------------------------------------
  // Users (web_server.py:87-128)
  // ---------------------------------------------------------------------------

  /** The entries `load_file_credentials` walks (web_server.py:96-101). */
  function Candidates(raw: Json): seq<Json>
  {
    match raw
    case JObject(members) =>
      if Get(members, "users").JArray? then Get(members, "users").items else [raw]
    case JArray(items) => items
    case _ => []
  }

  /** The listing server's copy of the credential loader walks the same
      entries as the configuration's, so both read the same pairs from a
      file. */
  lemma CandidatesAgreeWithConfig(raw: Json)
    ensures Candidates(raw) == Records(raw)
  {
    if raw.JObject? && Get(raw.members, "users").JArray? {
      assert HasKey(raw.members, "users");
    }
  }

  /** web_server.py:87-109; `file` is `None` when the file is missing or
      is not valid JSON. */
  method LoadFileCredentials(file: Option<Json>) returns (records: seq<(string, string)>)
    ensures records == LoadCredentials(file)
  {
    if file.None? {
      return [];
    }
    CandidatesAgreeWithConfig(file.value);
    records := CollectCredentials(Candidates(file.value));
  }

  /** `combined` after `combined[user] = pwd` for every pair, in order:
      the users are those of `combined` and those listed. */
  function Merge(combined: map<string, string>, pairs: seq<(string, string)>): (r: map<string, string>)
    ensures forall u :: u in r <==> u in combined || exists i :: 0 <= i < |pairs| && pairs[i].0 == u
  {
    if |pairs| == 0 then combined
    else Merge(combined, pairs[..|pairs| - 1])[pairs[|pairs| - 1].0 := pairs[|pairs| - 1].1]
  }

  lemma MergeSnoc(combined: map<string, string>, pairs: seq<(string, string)>, pair: (string, string))
    ensures Merge(combined, pairs + [pair]) == Merge(combined, pairs)[pair.0 := pair.1]
  {
    assert (pairs + [pair])[..|pairs|] == pairs;
  }

  /** One more pair of a list merged. */
  lemma MergePrefix(combined: map<string, string>, pairs: seq<(string, string)>, i: nat)
    requires i < |pairs|
    ensures Merge(combined, pairs[..i + 1]) == Merge(combined, pairs[..i])[pairs[i].0 := pairs[i].1]
  {
    assert pairs[..i + 1] == pairs[..i] + [pairs[i]];
    MergeSnoc(combined, pairs[..i], pairs[i]);
  }

  /** Merging two lists is merging the first, then the second. */
  lemma {:induction false} MergeAppend(combined: map<string, string>, a: seq<(string, string)>, b: seq<(string, string)>)
    ensures Merge(combined, a + b) == Merge(Merge(combined, a), b)
    decreases |b|
  {
    if |b| > 0 {
      var last := b[|b| - 1];
      var front := b[..|b| - 1];
      assert a + b == (a + front) + [last];
      assert b == front + [last];
      MergeSnoc(combined, a + front, last);
      MergeSnoc(Merge(combined, a), front, last);
      MergeAppend(combined, a, front);
    } else {
      assert a + b == a;
    }
  }

  /** The password of the last pair listed for `user`: an independent
      reading of "later pairs override earlier ones". */
  function LastPassword(pairs: seq<(string, string)>, user: string): Option<string>
  {
    if |pairs| == 0 then None
    else if pairs[|pairs| - 1].0 == user then Some(pairs[|pairs| - 1].1)
    else LastPassword(pairs[..|pairs| - 1], user)
  }

  /** `LastPassword` finds the last pair listed for the user, and finds
      nothing only when no pair is listed for it. */
  lemma {:induction false} LastPasswordIsLastListed(pairs: seq<(string, string)>, user: string)
    ensures LastPassword(pairs, user).None? ==> forall i :: 0 <= i < |pairs| ==> pairs[i].0 != user
    ensures LastPassword(pairs, user).Some? ==>
              exists i :: 0 <= i < |pairs| && pairs[i] == (user, LastPassword(pairs, user).value)
                          && forall j :: i < j < |pairs| ==> pairs[j].0 != user
    decreases |pairs|
  {
    if |pairs| > 0 {
      var n := |pairs| - 1;
      if pairs[n].0 == user {
        assert pairs[n] == (user, LastPassword(pairs, user).value);
      } else {
        var init := pairs[..n];
        LastPasswordIsLastListed(init, user);
        var r := LastPassword(init, user);
        assert LastPassword(pairs, user) == r;
        if r.Some? {
          var i :| 0 <= i < |init| && init[i] == (user, r.value)
                   && forall j :: i < j < |init| ==> init[j].0 != user;
          assert pairs[i] == init[i];
          forall j | i < j < |pairs|
            ensures pairs[j].0 != user
          {
            if j < n {
              assert pairs[j] == init[j];
            }
          }
        } else {
          forall i | 0 <= i < |pairs|
            ensures pairs[i].0 != user
          {
            if i < n {
              assert pairs[i] == init[i];
            }
          }
        }
      }
    }
  }

  /** The users after `refresh_allowed_users`: the environment pair, if both
      halves are set, then the file's pairs. */
  function AllowedUsers(envUser: Option<string>, envPass: Option<string>, file: Option<Json>): map<string, string>
  {
    Merge(map[], EnvPair(envUser, envPass) + LoadCredentials(file))
  }

  /** Merging from an empty dictionary keeps, for each user, exactly the
      password of the last pair listed for it. */
  lemma {:induction false} MergeIsLastPassword(pairs: seq<(string, string)>, user: string)
    ensures user in Merge(map[], pairs) <==> LastPassword(pairs, user).Some?
    ensures user in Merge(map[], pairs) ==> Merge(map[], pairs)[user] == LastPassword(pairs, user).value
  {
    if |pairs| > 0 {
      MergeIsLastPassword(pairs[..|pairs| - 1], user);
    }
  }

  /** `verify_credentials` (web_server.py:126-128). */
  function VerifyCredentials(allowed: map<string, string>, username: string, password: string): bool
  {
    username in allowed && allowed[username] == password
  }

  /** After a refresh, a login succeeds exactly when the password is the one
      of the last pair listed for the user, the file's pairs coming after
      the environment's. */
  lemma LoginUsesLastListedPassword(envUser: Option<string>, envPass: Option<string>, file: Option<Json>,
                                    username: string, password: string)
    ensures VerifyCredentials(AllowedUsers(envUser, envPass, file), username, password)
            <==> LastPassword(EnvPair(envUser, envPass) + LoadCredentials(file), username) == Some(password)
  {
    MergeIsLastPassword(EnvPair(envUser, envPass) + LoadCredentials(file), username);
  }

  /** Authentication is switched on exactly when some pair is configured. */
  lemma AuthEnabledIffSomePair(envUser: Option<string>, envPass: Option<string>, file: Option<Json>)
    ensures |AllowedUsers(envUser, envPass, file)| > 0
            <==> |EnvPair(envUser, envPass) + LoadCredentials(file)| > 0
  {
    var pairs := EnvPair(envUser, envPass) + LoadCredentials(file);
    if |pairs| > 0 {
      MergeIsLastPassword(pairs, pairs[|pairs| - 1].0);
      assert pairs[|pairs| - 1].0 in AllowedUsers(envUser, envPass, file);
    }
  }

  /** `is_authenticated` (web_server.py:131-137) with the request's session
      cookie. */
  function IsAuthenticated(authEnabled: bool, allowed: map<string, string>, ttl: nat,
                           sign: string -> HexDigest, cookie: Option<string>, now: real): TokenCheck
  {
    if !authEnabled then Accepted
    else if !Truthy(cookie) then Rejected
    else ValidateSessionToken(allowed, ttl, sign, cookie.value, now)
  }

  /** A user who logged in (web_server.py:558-569) and keeps the cookie is
      authenticated until the token expires. */
  lemma LoginThenAuthenticated(allowed: map<string, string>, ttl: nat, sign: string -> HexDigest,
                               username: string, password: string, loginAt: real, now: real)
    requires VerifyCredentials(allowed, username, password) && '|' !in username
    ensures (IsAuthenticated(|allowed| > 0, allowed, ttl, sign, Some(CreateSessionToken(sign, username, loginAt)), now)
             == Accepted)
            <==> ttl == 0 || now - Trunc(loginAt) as real <= ttl as real
  {
    SessionRoundTrip(allowed, ttl, sign, username, loginAt, now);
  }

  /** The mutable globals `ALLOWED_USERS` and `AUTH_ENABLED`, with the
      configured TTL and signing key fixed at start-up. */
  class AuthState {
    var allowed: map<string, string>
    var authEnabled: bool
    const ttl: nat
    const sign: string -> HexDigest

    /** web_server.py:50-53: no users, authentication off,
        `SESSION_TTL = max(int(LISTING_SESSION_TTL), 0)`. */
    constructor(configuredTtl: int, sign: string -> HexDigest)
      ensures allowed == map[] && !authEnabled
      ensures ttl == NonNegative(configuredTtl) && this.sign == sign
    {
      allowed := map[];
      authEnabled := false;
      ttl := NonNegative(configuredTtl);
      this.sign := sign;
    }

    /** `refresh_allowed_users` (web_server.py:112-123). */
    method Refresh(envUser: Option<string>, envPass: Option<string>, file: Option<Json>)
      modifies this
      ensures allowed == AllowedUsers(envUser, envPass, file)
      ensures authEnabled <==> |allowed| > 0
    {
      var combined: map<string, string> := map[];
      if Truthy(envUser) && Truthy(envPass) {
        combined := combined[envUser.value := envPass.value];
      }
      ghost var start := combined;
      assert start == Merge(map[], EnvPair(envUser, envPass)) by {
        if Truthy(envUser) && Truthy(envPass) {
          MergeSnoc(map[], [], (envUser.value, envPass.value));
        }
      }
      var records := LoadFileCredentials(file);
      var i := 0;
      while i < |records|
        invariant 0 <= i <= |records|
        invariant combined == Merge(start, records[..i])
      {
        MergePrefix(start, records, i);
        combined := combined[records[i].0 := records[i].1];
        i := i + 1;
      }
      assert combined == AllowedUsers(envUser, envPass, file) by {
        assert records[..i] == records;
        MergeAppend(map[], EnvPair(envUser, envPass), records);
      }
      allowed := combined;
      authEnabled := |allowed| > 0;
    }
  }
}
