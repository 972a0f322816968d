# File-sharing bot: upload server, listing site and helpers, in Dafny

This project models the core of a file-sharing service. An upload server
accepts a file in a multipart request, charges it to the uploader's address
against a per-address storage quota, and records it in an index. A listing
site, protected by signed session cookies, shows every stored file. The
model covers:

- **The upload index and upload directory** (`Store.Store`, `Uploads`, `Quota`):
  - `handle_upload` is a small state machine. It rejects a missing field, runs a pre-flight quota check, then a chunk-by-chunk write loop that stops on a quota breach or an exception, and finally commits one record.
  - `handle_delete`, `handle_list` and `handle_listing`.
  - The index is a map from token to record. The directory is a map from saved file name to its size in bytes.
  - A request body is the sequence of chunk lengths `read_chunk()` returns.
  - An exception or a cancellation is an abort event at a read position.
- **Listing authentication** (`ListingAuth`, `Urls`):
  - signed session tokens: the user name, the issue time and the signature joined by bars;
  - the user table rebuilt by `refresh_allowed_users`, and `verify_credentials`;
  - the open-redirect guard `sanitize_next`;
  - the origins and the login and listing URLs built from them.
- **Helpers** (`Helpers`): the unit chosen by `human_readable_size`, the first-match preview classifier, the client address from `X-Forwarded-For`, `{{KEY}}` template substitution, and the file URLs.
- **The credentials file** (`Config`): the parser `_load_credentials_from_file` over a decoded JSON value, and the assembly of `LISTING_CREDENTIALS`.

State-changing handlers are methods of a class. Each is proved equal to a
specification function of the old state (`UploadSpec`, `DeleteSpec`), and
lemmas about those functions carry the promised properties. The main ones:

- With a positive limit, every sequence of uploads and deletes keeps every address's committed total within the limit.
- A write loop stopped by the quota overshot by at most one chunk.
- A successful upload adds exactly one entry.
- A delete removes exactly one entry.

The HMAC signature, `unquote`, `urlencode`, `mimetypes.guess_type`,
`format_timestamp`, the clock, the UUID token and the bytes of a file are
parameters.

Points where the model follows the code rather than the intent its names
suggest:

- `sanitize_next` decodes first and checks afterwards. A target that does not start with `/` is still accepted when it decodes to a local path: `%2Fx` gives `/x` (`Urls.DecodingDecides`).
- A listing user whose name contains `|` can log in, but the session token made for them never validates (`ListingAuth.BarInUserNameNeverValidates`).
- `hmac.compare_digest` raises on a non-ASCII signature. The request then ends in the error middleware's 500 response, which is `TokenCheck.CompareRaises` and `ListingOutcome.ServerError`.
- A file part without a `filename` parameter is still stored, as `<token>-None` with a null file name (`Uploads.UnnamedUploadIsStored`). Afterwards `mimetypes.guess_type(None)` raises in the listing handler, so the listing answers 500 to everyone until that entry is deleted (`Store.UnnamedUploadBreaksListing`, `Store.Store.Listing`).
- A quota stop reports the remaining allowance as it was before the upload, `max(limit - usage, 0)`. It is never the negative amount left after the partial write.

## Model

| member | source | states |
|---|---|---|
| Common.NonNegative | web_server.py:368 | `max(x, 0)`: the result is at least `x` and is either `x` or 0 |
| Common.Trunc | web_server.py:383 | `int(time.time())` truncates toward zero: the result lies within one of the value, on the side of zero |
| PyStrings.SplitOnCharFirst | helpers.py:113 | the first part of `split` on one character runs up to the first occurrence of that character, or to the end when there is none |
| PyStrings.SplitOn | web_server.py:67 | `s.split(sep)` scans left to right and cuts at each non-overlapping occurrence; there is always at least one part. Its laws are `SplitOnChar`, `SplitOnCharFirst` and `JoinSplitRoundTrip` |
| PyStrings.Join | web_server.py:62-64 | `sep.join(parts)`, the form in which a token is assembled from its parts; `JoinSplitRoundTrip` proves it undoes `split` |
| PyStrings.SplitOnChar | web_server.py:67-69 | splitting a token on the bar character gives one more part than the token has bars, and no part contains a bar |
| PyStrings.JoinSplitRoundTrip | web_server.py:67 | joining the parts of a split with the separator gives the string back |
| PyStrings.ParseIntToString | web_server.py:61-79 | `int(str(n)) == n`: the issue time written into a token reads back as the same number |
| PyStrings.NumeralAvoids | web_server.py:61-63 | the decimal numeral of the issue time contains no bar |
| PyStrings.Strip | helpers.py:113 | `str.strip()` leaves no whitespace at either end |
| PyStrings.StripRemovesOnlySpace | helpers.py:113 | `str.strip()` removes whitespace only: the input is whitespace, the result, and more whitespace |
| PyStrings.StripIdempotent | helpers.py:113 | stripping a stripped entry changes nothing |
| PyStrings.RStripChar | helpers.py:92 | `rstrip("/")` removes exactly the trailing slashes: the result is a prefix, everything cut is `/`, and it does not end in `/` |
| PyStrings.Lower | helpers.py:64 | `.lower()` keeps the length, leaves no capital, keeps every other character in place and turns each capital into its lower-case letter, so a string without capitals is its own lower case |
| PyStrings.LowerIdempotent | helpers.py:64 | lower-casing twice is lower-casing once |
| PyStrings.ReplaceAbsent | helpers.py:57 | `str.replace` of a pattern that does not occur leaves the string unchanged |
| PyStrings.ReplaceIsJoinOfSplit | helpers.py:57 | `s.replace(p, r)` is `r.join(s.split(p))` |
| PyStrings.Replace | helpers.py:57 | `s.replace(pat, repl)` replaces non-overlapping occurrences left to right; `ReplaceIsJoinOfSplit` and `ReplaceAbsent` characterise it |
| PyStrings.LStrip | helpers.py:113 | the leading part of `strip()`: the result is a suffix of the input, everything removed is whitespace, and it does not start with whitespace |
| PyStrings.RStrip | helpers.py:113 | the trailing part of `strip()`: the result is a prefix of the input, everything removed is whitespace, and it does not end with whitespace |
| PyStrings.IntToString | web_server.py:61 | `str(i)` is a non-empty numeral ending in a digit; `ParseIntToString` proves `int` reads it back |
| PyStrings.ParseInt | web_server.py:77-80 | `int(issued_str)`, `None` where it raises `ValueError`: an optional sign and decimal digits; `ParseIntToString` proves it inverts `str` |
| Config.Get | config.py:71-72 | `entry.get(key)` is the value of the last member named `key` (a repeated key keeps its last value), and `None` when no member has that name |
| Config.PyStr | config.py:74 | `str()` of a truthy value is a non-empty string |
| Config.EntryCredential | config.py:68-74 | an entry yields a pair only if it is an object, and then both halves are non-empty; `EntryCredentialRule` states the whole rule |
| Config.EntryCredentialRule | config.py:68-74 | for every object entry: the name is `username`, or `user` when that is falsy; the password is `password`, or `pass` when that is falsy; the entry yields a pair iff both chosen values are truthy, and the pair is their `str()` |
| Config.Contribution | config.py:73-74 | one entry appends at most one pair |
| Config.Records | config.py:59-67 | the entries of a document: a `users` array, one object, an array's elements, or none; `DocumentShapes` states each case |
| Config.LoadCredentials | config.py:51-75 | the parser's result; `LoadCredentialsFromFile` computes it and `DocumentShapes` gives the missing-file and undecodable cases |
| Config.Credentials | config.py:67-75 | at most one pair per entry, each with a non-empty user name and password |
| Config.CollectCredentials | config.py:57-75 | the loop that appends pairs computes the parser's result |
| Config.LoadCredentialsFromFile | config.py:51-75 | a missing or undecodable file gives no pairs; otherwise the pairs of the document's entries |
| Config.AssembleCredentials | config.py:78-83 | `LISTING_CREDENTIALS` is the environment pair, when both halves are set, followed by the file's pairs; when non-empty its first pair becomes the primary user name and password, otherwise those keep the environment's values |
| Config.CredentialsAppend | config.py:67-75 | output order follows input order: each entry contributes on its own |
| Config.SkipsNonObjects | config.py:68-70 | an entry that is not an object contributes nothing |
| Config.CredentialsComeFromEntries | config.py:67-75 | every pair produced is the pair of some entry |
| Config.EveryQualifyingEntryYieldsOnePair | config.py:67-75 | when every entry yields a pair, the result is exactly those pairs, in entry order |
| Config.DocumentShapes | config.py:51-67 | no file gives `[]`; an array uses its elements; an object with a `users` array uses that array; any other object is one entry; any other value gives `[]` |
| Config.FallbackToUserAndPass | config.py:71-72 | example: an entry with only `user` and `pass` yields those two |
| Config.FalsyUsernameFallsBack | config.py:71 | example: an entry whose `username` is empty, whose `user` is any non-empty text and whose password is `x` yields that `user` and `x` |
| Config.NonStringFieldsAreStringified | config.py:73-74 | example: the non-string values `7` and `True` are kept and stringified |
| Config.MissingPasswordIsDropped | config.py:72-73 | example: an entry whose password is null is dropped |
| Helpers.UnitIndex | helpers.py:35-42 | the unit index is below 5; a unit above B is reached only from 1024^k bytes; below TB the size is under the next power of 1024 |
| Helpers.ReadableOf | helpers.py:34-42 | a size prints as whole bytes iff it is under 1024, otherwise scaled; either way the amount is that size |
| Helpers.HumanReadableSize | helpers.py:33-42 | the dividing loop picks the unit of `ReadableOf` for `size or 0` |
| Helpers.UnitIndexIsLeast | helpers.py:36-41 | the unit is the least k with size < 1024^(k+1) |
| Helpers.UnitIndexMonotone | helpers.py:36-41 | a larger size never gets a smaller unit |
| Helpers.ScaledAmountInRange | helpers.py:36-42 | a scaled amount is at least 1 and, below TB, under 1024 |
| Helpers.SmallSizesPrintWholeBytes | helpers.py:34-39 | sizes under 1024, `None` among them, print as whole bytes, `None` as `0 B` |
| Helpers.WholeTextExamples | helpers.py:37-39 | 0 prints `0 B` and 1023 prints `1023 B` |
| Helpers.UnitExamples | helpers.py:36-41 | 1024 is KB and 1048576 is MB |
| Helpers.PathNameOfPlainName | helpers.py:64 | `Path(name).name` of a name without `/` is the name itself (empty for `.`) |
| Helpers.PathName | helpers.py:64 | `Path(name).name` is a single path component: it has no `/` and is never `.` |
| Helpers.Suffix | helpers.py:64 | `.suffix` is empty or a proper ending of the name that starts with `.` |
| Helpers.SuffixOfDottedName | helpers.py:64 | the suffix of `stem.ext` is `.ext` |
| Helpers.SuffixOfUndottedName | helpers.py:64 | a name without a dot has no suffix |
| Helpers.ExtensionOfDottedName | helpers.py:64 | the classifier's extension of `stem.ext` is `.ext` lower-cased |
| Helpers.Extension | helpers.py:64 | the lower-cased suffix is empty or a dot followed by at least one character, and has no capitals |
| Helpers.BuildPreviewPayload | helpers.py:61-87 | the preview is the one of the first kind in the order image, video, audio, pdf, text whose check matches the file's extension or MIME type |
| Helpers.Classify | helpers.py:64-87 | the if-chain of checks on the extension and MIME type; `PreviewIsFirstMatch` proves it is first-match over the table |
| Helpers.TextPreview | helpers.py:76-87 | a text preview exists iff the file reads and is non-empty; its snippet is a non-empty prefix of at most 4000 characters, and `truncated` holds iff more text follows |
| Helpers.FirstMatch | helpers.py:65-75 | the kind found matches and is one of the listed kinds; none is found only when no kind matches |
| Helpers.FirstMatchIsFirst | helpers.py:65-75 | the kind found is the earliest matching kind in the list |
| Helpers.PreviewIsFirstMatch | helpers.py:64-87 | the classifier answers with the first matching kind in the order image, video, audio, pdf, text |
| Helpers.UpperCasePngIsImage | helpers.py:64-66 | `.PNG` without a MIME type is an image |
| Helpers.PdfWithoutMimeType | helpers.py:71-72 | `.pdf` without a MIME type is a PDF |
| Helpers.UnknownTypeHasNoPreview | helpers.py:64-87 | an unknown type gets `{"kind": "none"}` |
| Helpers.TextPreviewExamples | helpers.py:73-87 | a short `.txt` file is previewed whole and untruncated; an unreadable one falls through to none |
| Helpers.ClientIp | helpers.py:110-117 | with `X-Forwarded-For` the address is a stripped entry without commas; otherwise the peer host, else `unknown` |
| Helpers.ClientIpIsFirstForwardedEntry | helpers.py:111-113 | the address is the stripped text before the first comma of the header |
| Helpers.Placeholder | helpers.py:57 | the placeholder of `KEY` is the text `{{KEY}}` |
| Helpers.Render | helpers.py:56-57 | the template after each replacement is applied in turn, in the order of the dict; `RenderReplacesPlaceholder` and `RenderWithoutPlaceholders` state what it does |
| Helpers.RenderTemplate | helpers.py:54-58 | the loop over the replacements computes the substituted template |
| Helpers.RenderWithoutPlaceholders | helpers.py:56-57 | a template and values without `{` are left unchanged |
| Helpers.RenderReplacesPlaceholder | helpers.py:54-58 | a template holding `{{KEY}}` with no other `{` around it renders with the value in place of the placeholder |
| Helpers.MakeFileUrl | helpers.py:90-96 | the upload URL is the external URL without its trailing slashes, else the request's scheme, `://` and its `Host` header (or `HTTP_HOST:HTTP_PORT`), followed by `/files/` and the token |
| Helpers.PublicBaseUrl | helpers.py:99-102 | the external URL without its trailing slashes, else `http://HTTP_HOST:HTTP_PORT`; it never ends in `/` |
| Helpers.FilePageUrl | helpers.py:105-107 | the page URL is the public base URL followed by `/files/` and the token, so with an external URL it is that URL without its trailing slashes |
| Helpers.FileUrlsAgree | helpers.py:90-107 | with an external URL both URL builders agree for every request; without one the page URL uses the configured host and port |
| Helpers.TokenIsLastUrlPart | helpers.py:90-96 | the token is the last `/`-separated part of its URL |
| ListingAuth.NoBarInDigest | web_server.py:56-57 | a hex digest contains no bar and is ASCII |
| ListingAuth.CreateSessionToken | web_server.py:60-64 | a token starts with the user name and a bar and holds exactly two bars more than the user name |
| ListingAuth.ValidateSessionToken | web_server.py:67-84 | a token that is not rejected has three parts and names a current user; the check raises only on a non-ASCII signature |
| ListingAuth.SplitToken | web_server.py:60-69 | a token for a user name without a bar splits into exactly user, issue time and signature |
| ListingAuth.SessionRoundTrip | web_server.py:60-84 | a token made for an allowed user whose name has no bar is accepted iff the TTL is 0 or its age is within the TTL |
| ListingAuth.BarInUserNameNeverValidates | web_server.py:60-70 | a token for a user name containing a bar is always rejected |
| ListingAuth.MalformedTokenRejected | web_server.py:67-70 | a token without exactly two bars, which does not split into three parts, is rejected |
| ListingAuth.AcceptedTokenIsSigned | web_server.py:67-84 | every accepted token is an allowed user, a bar, an issue text, a bar, and the signature of the first two joined by a bar |
| ListingAuth.CandidatesAgreeWithConfig | web_server.py:96-101 | the listing server's copy of the loader walks the same entries as the configuration's |
| ListingAuth.Candidates | web_server.py:96-101 | the entries the listing server's loader walks; `CandidatesAgreeWithConfig` proves they are the configuration's |
| ListingAuth.LoadFileCredentials | web_server.py:87-109 | the listing server's loader returns the same pairs as the configuration's parser |
| ListingAuth.Merge | web_server.py:116-120 | after `combined[user] = pwd` for every pair, the users are those already present and those listed; `MergeIsLastPassword` gives the passwords |
| ListingAuth.AllowedUsers | web_server.py:112-123 | the users after a refresh: the environment pair, then the file's pairs, merged; `LoginUsesLastListedPassword` and `AuthEnabledIffSomePair` state its properties |
| ListingAuth.VerifyCredentials | web_server.py:126-128 | a login succeeds iff the user is present with that password; `LoginUsesLastListedPassword` relates it to the configured pairs |
| ListingAuth.IsAuthenticated | web_server.py:131-137 | everything passes when authentication is off; otherwise a missing cookie is rejected and a present one is validated; `LoginThenAuthenticated` states the round trip |
| ListingAuth.LastPasswordIsLastListed | web_server.py:116-120 | the last password listed for a user is one of the listed pairs; none means the user is not listed |
| ListingAuth.MergeIsLastPassword | web_server.py:116-120 | after `combined[user] = pwd` over the pairs in order, a user is present iff listed, with the last password listed |
| ListingAuth.LoginUsesLastListedPassword | web_server.py:112-128 | after a refresh a login succeeds iff the password is the last one listed for the user, the file's pairs after the environment's |
| ListingAuth.AuthEnabledIffSomePair | web_server.py:112-123 | authentication is on iff some pair is configured |
| ListingAuth.LoginThenAuthenticated | web_server.py:131-137 | a user who logged in is authenticated with the cookie iff the TTL is 0 or the token is not older than the TTL |
| ListingAuth.AuthState.constructor | web_server.py:50-53 | no users, authentication off, TTL `max(int(LISTING_SESSION_TTL), 0)` |
| ListingAuth.AuthState.Refresh | web_server.py:112-123 | the users become the merge of the environment pair and the file's pairs; authentication is on iff there is a user |
| Urls.SanitizeNext | web_server.py:140-151 | the result is always a local path (starts with `/`, not `//`); a falsy target gives `/`; otherwise the decoded target if local, else `/` |
| Urls.LocalPathKept | web_server.py:140-151 | a local path that decodes to itself passes unchanged |
| Urls.DecodingDecides | web_server.py:143-150 | `%2Fx` is accepted as `/x`; `/%2Fevil`, which decodes to `//evil`, is refused |
| Urls.NormalizeHost | web_server.py:197-200 | the host is kept or bracketed; a result with a colon is always bracketed; a host already bracketed or without a colon is kept |
| Urls.NormalizeHostIdempotent | web_server.py:197-200 | normalizing twice changes nothing, and a normalized host with a colon is bracketed |
| Urls.BuildOrigin | web_server.py:203-210 | the origin starts with the forwarded scheme (else the request's), `://` and the normalized host, the request's host before `HTTP_HOST`; `DefaultPortElided` and `PortRecoverable` give the port |
| Urls.DefaultPortElided | web_server.py:203-210 | the origin omits the port iff the port is the scheme's default |
| Urls.PortRecoverable | web_server.py:208-210 | a non-default port reads back from the numeral after the origin's last colon |
| Urls.LoginParams | web_server.py:224-228 | `next` is passed iff the target is neither empty nor `/`, `error=1` iff an error is reported, nothing else, in that order |
| Urls.BuildLoginUrl | web_server.py:221-231 | a login URL starts with the login origin and `/` |
| Urls.LoginUrlQuery | web_server.py:224-231 | the login URL has a query iff there is a target other than the root or an error; the query is the encoding of those parameters |
| Urls.BuildListingUrl | web_server.py:234-238 | the listing URL is the origin followed by the target, or `/` for an empty or root target |
| Urls.ListingRedirectStaysOnOrigin | web_server.py:234-238 | after a sanitized target, the redirect stays on the listing origin at a local path |
| Quota.SumOverRemove | web_server.py:320-324 | the sum of charges does not depend on the order the entries are taken in |
| Quota.Usage | web_server.py:320-324 | the sum of sizes of the entries charged to an address; `SumOverRemove`, `UsageRemove`, `UsageUpdate` and `UsageEmpty` are its laws |
| Quota.UsageRemove | web_server.py:320-324 | removing an entry uncharges exactly that entry |
| Quota.UsageUpdate | web_server.py:320-324 | writing an entry charges the new record in place of any old one at the same token |
| Quota.UsageEmpty | web_server.py:320-324 | nothing is charged in an empty index |
| Quota.SumUsage | web_server.py:320-324 | the loop computes the sum of sizes of the entries whose address is the client's |
| Uploads.DataChunks | web_server.py:344-347 | the body ends at the first empty chunk or at the end of the stream |
| Uploads.ReadLoop | web_server.py:343-352 | how the write loop ends from a given read on; `CompletedLoop`, `QuotaHitOvershoot` and `NoLimitNoQuotaHit` are its properties and `Store.Store.WriteBody` computes it |
| Uploads.SavedName | web_server.py:310-312 | the saved name is the token, a dash and the file name, or `None` when the part has no file name |
| Uploads.UploadSpec | web_server.py:304-390 | the outcome, index and directory after `handle_upload`; `Store.Store.Upload` computes it and the lemmas below state its properties |
| Uploads.AfterLoop | web_server.py:353-390 | what the handler does once the write loop has ended: remove the partial file, or commit the record |
| Uploads.CompletedLoop | web_server.py:343-352 | a loop that completes has written the whole body, and with a positive limit the total stayed within it |
| Uploads.QuotaHitOvershoot | web_server.py:349-352 | a quota stop happens at the first chunk taking the total over the limit, so the partial file exceeds it by at most that chunk |
| Uploads.NoLimitNoQuotaHit | web_server.py:350 | without a positive limit the quota never stops the loop |
| Uploads.MissingFieldChangesNothing | web_server.py:305-308 | a missing or misnamed field is answered 400 and changes neither the index nor the directory |
| Uploads.PreflightRejectsWhenFull | web_server.py:317-336 | the pre-flight refusal happens iff the limit is positive and the address's usage has reached it, before any write, with nothing changed |
| Uploads.UploadCommitsOneRecord | web_server.py:310-390 | a successful upload adds exactly one entry at the new token: the whole body's size, saved name `token-filename`, uploader `web`; every other entry is unchanged; the URL ends in the token |
| Uploads.UnnamedUploadIsStored | web_server.py:310-387 | a file part without a file name is still stored, under `<token>-None`, with a null file name in its entry |
| Uploads.UploadRespectsQuota | web_server.py:319-387 | with a positive limit, after a successful upload the address is charged at most the limit |
| Uploads.OnlySuccessChangesIndex | web_server.py:304-390 | every answer but a successful upload leaves the index as it was |
| Uploads.UploadKeepsQuota | web_server.py:319-387 | an upload keeps every address within a positive limit |
| Uploads.QuotaExceededLeavesNoEntry | web_server.py:364-377 | a quota stop removes the partial file, adds no entry, reports the prior usage and `max(limit - usage, 0)`, and overshot by at most one chunk |
| Uploads.FailedUploadLeavesNoTrace | web_server.py:353-358 | an exception or cancellation in the loop removes the file and leaves the index unchanged |
| Uploads.CancelledBeforeFirstRead | web_server.py:341-358 | an abort at the first read fails whatever the body |
| Uploads.TenBytesOverFiveByteLimit | web_server.py:343-377 | ten bytes against a five-byte limit are refused after the first chunk, with 5 remaining and nothing left behind |
| Uploads.TenBytesWithoutLimit | web_server.py:343-387 | without a limit, chunks of 4 and 6 bytes are stored as one 10-byte file |
| Uploads.DeleteSpec | web_server.py:486-500 | the outcome, index and directory after `handle_delete`; `Store.Store.Delete` computes it |
| Uploads.DeleteRemovesOnlyThatEntry | web_server.py:486-500 | a missing token is answered 404 and a token uploaded from another address 403; a delete succeeds iff the token exists and was uploaded from the same address, and then removes exactly that entry and its file; otherwise nothing changes; other tokens are untouched |
| Uploads.DeleteTwiceNotFound | web_server.py:488-491 | deleting the same token again finds nothing |
| Uploads.DeleteFreesQuota | web_server.py:495-498 | a delete uncharges the file's size from its uploader |
| Uploads.DeleteKeepsQuota | web_server.py:486-500 | a delete keeps every address within a positive limit |
| Uploads.RunKeepsQuota | web_server.py:304-500 | any sequence of uploads and deletes keeps every address within a positive limit |
| Uploads.EmptyIndexWithinQuota | web_server.py:315 | an empty index is within any limit |
| Store.ListedIffDeletable | web_server.py:469-494 | a token is among the client's own files iff the client may delete it |
| Store.UploadedFileIsListed | web_server.py:379-387 | after a successful upload the uploader's own files are the previous ones plus the new token |
| Store.UnnamedUploadBreaksListing | web_server.py:581-586 | after a file without a file name is stored, some entry has no name, so every listing that passes the session check fails until it is deleted |
| Store.FileType | web_server.py:585-586 | the file type is never empty; it is the guessed MIME type whenever there is one, and `不明` only when the guess is missing or empty |
| Store.Insert | web_server.py:600 | inserting into a newest-first list keeps it sorted and adds exactly that row |
| Store.SortByTimestamp | web_server.py:600 | the sorted rows are newest first and a permutation of the rows |
| Store.PermutationDescribes | web_server.py:600 | sorting keeps one row per entry, each describing its own entry |
| Store.Store.Upload | web_server.py:304-390 | the handler's loop and commit produce exactly the outcome, index and directory of `UploadSpec` |
| Store.Store.WriteBody | web_server.py:338-352 | the write loop ends exactly as `ReadLoop` says, and the file then holds every byte written; the index is untouched |
| Store.Store.Delete | web_server.py:486-500 | the handler produces exactly the outcome, index and directory of `DeleteSpec` |
| Store.Store.List | web_server.py:469-484 | one item per file uploaded from the client's address, each with its token, name, size, time and URL, and nothing else |
| Store.Store.CollectRows | web_server.py:581-598 | the loop stops iff some entry has no file name; otherwise one row per entry of the index, built from that entry, and no other rows |
| Store.Store.Listing | web_server.py:577-603 | 401 iff authentication rejects the cookie; 500 iff the token check raises or, past it, some entry has no file name; otherwise one row per entry, newest first |

## Left out

- I/O is left out: `load_index`/`save_index`, reading the body and the files, and the templates (their text is an input). The index and directory are in-memory values that each handler reads and writes directly.
- Concurrency is left out, including the lost update between two concurrent `load_index`/`save_index` pairs. Requests are handled one at a time.
- Store.Store.Upload: a cancellation while `field.release()` runs after a completed loop is not modelled. `CancelledError` is not an `Exception`, so the source leaves the written file on disk without an index entry. Abort events happen only at reads.
- Uploads.UploadSpec: a `uuid4` token that collides with an existing one overwrites that entry as in the source. The quota lemmas hold without assuming a fresh token.
- Helpers.HumanReadableSize: the two-decimal float text (`f"{size:.2f}"`) is not modelled. Only the unit choice, the scaled quantity and the whole-byte text are.
- Store.Store.Listing: the `timestamp` key is kept in the row, but the source pops it before answering. `meta.get` defaults are not modelled, because the model's records always carry every field (a file name may be null).
- Store.Store.Listing: `sort` is stable and dict order is insertion order. Neither is modelled, so rows with equal timestamps, and the items of `handle_list`, come in no particular order.
- Store.Store.Delete: `if not meta` also treats an empty record as missing. The model's records are never empty.
- The request's host parsing (`_request_host`, `_split_host`, `splitport`) is not modelled; `Urls.BuildOrigin` takes the hostname as an input. Also left out are `is_login_port_request`, cookie attributes, `handle_root`, `handle_get_file`, `handle_file_info` and `error_middleware`.
- HMAC-SHA256 signing is the parameter `sign`, and it returns a lower-case hex string. `uuid4`, `time.time`, `mimetypes.guess_type`, `format_timestamp`, `unquote` and `urlencode` are parameters or inputs as well.
- JSON numbers are integers and strings are compared as code points. `str()` of a float and Python's escaping in `repr` are simplified (`Config.PyRepr`).
- Helpers.Extension: `str.lower` is modelled only for the mappings that yield an ASCII letter (the ASCII capitals and KELVIN SIGN); other case mappings cannot produce a listed extension and are not modelled.
- Helpers.Suffix: follows the `pathlib` rule before Python 3.14, where a name ending in `.` has no suffix.
- PyStrings.ParseInt: accepts an optional sign and decimal digits. `int()`'s surrounding whitespace and `_` separators are not modelled.
- The Discord bot, its setup, the GitHub client, `file_index.py` and the environment parsing of `config.py` are not part of this model.
