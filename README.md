# Baidu Tieba auto sign-in, modelled in Dafny

This project models the sign-in client in `main.py`. For every account
credential it does the following:

- fetches the account's `tbs` token;
- pages through the list of followed forums;
- signs in to each forum with a request signed by `encodeData`.

Every network call goes through one retrying transport (`safe_request` /
`get_json_response`).

The model replaces I/O with inputs:

- The network is a function from the attempt index to what that attempt
  produced (no response, or a status and a body).
- JSON decoding is a `decode` parameter.
- MD5 is a `digest` parameter.
- Each page request and each sign request carries its own `int(time.time())`
  value.

Modules, one file each:

- `Text` (`text.dfy`): Python's `str.strip()`, `str.split(sep)` for one
  character, `sep.join`, and `str(n)` for integers.
- `JsonValue` (`json_value.dfy`): decoded JSON values, and Python's `in`, `[]`
  and `.get` on them. A wrong-shaped value gives the exception the
  interpreter raises (`KeyError`, `TypeError`, `AttributeError`) as an `Err`.
- `Signer` (`signer.dfy`): a Python dict as a class (insertion order plus
  entries) and `encodeData`. `encodeData` sorts the keys and concatenates
  `key=value` pairs. It appends `tiebaclient!!!`, takes the uppercase hex of
  the digest, and stores it under `sign` in the same dict.
- `Transport` (`transport.dfy`): the counted retry loop, with its backoff
  sleeps and final raise. Also the JSON decode, which happens once and is
  never retried.
- `Collector` (`collector.dfy`): `get_favorite`. It requests pages 1, 2, 3, …
  and flattens each page's `forum_list` subgroups in a fixed order. It stops
  after the first page whose `has_more` is not `"1"`. When anything raises,
  it returns what it had gathered.
- `SignAction` (`sign_action.dfy`): `client_sign`. It builds and signs the
  sign request and classifies the reply by `error_code`. Every exception
  raised inside its `try` comes back as a returned error value.
- `Driver` (`driver.dfy`): `validate_bduss`, the credential list, `get_tbs`,
  and the loops over accounts and over forums in `main`, with where their
  pauses happen.

Two details of the transport, as the code has them:

- A status fails an attempt only when `raise_for_status` raises, that is for
  400–599. A 1xx or 3xx answer with a non-blank body is accepted.
- After the last failed attempt the transport raises an error that carries
  the attempt count (`RetriesExhausted(retry)`). It does not carry the last
  failure reason.

## Model

| member | source | states |
|---|---|---|
| Text.IsSpace | main.py:95 | the whitespace set `strip()` removes, Python's `str.isspace()`; Text.IsSpaceByClass proves it equal to Unicode category Zs together with bidirectional classes WS, B and S |
| Text.IsSpaceByClass | main.py:95 | a character is whitespace exactly when its category is Zs or its bidirectional class is WS, B or S |
| Text.StripLeftShape | main.py:95 | `lstrip` keeps a suffix of the text, which is empty or starts with a non-whitespace character; everything it drops is whitespace |
| Text.StripRightShape | main.py:95 | `rstrip` keeps a prefix, which is empty or ends with a non-whitespace character; everything it drops is whitespace |
| Text.Strip | main.py:95 | the stripped text is no longer than the input and has whitespace at neither end |
| Text.StripShape | main.py:95 | the stripped text is the slice of the input that starts after the leading whitespace; only whitespace lies before and after it |
| Text.StripEmptyIffAllSpace | main.py:95 | the empty-body test `not text.strip()` holds exactly when every character is whitespace |
| Text.StripIdempotent | main.py:95 | stripping twice gives the same as stripping once |
| Text.IndexOf | main.py:283 | the position found holds the separator, and no earlier position does |
| Text.IndexOfFirst | main.py:283 | any position that holds the first separator is the one found |
| Text.Split | main.py:283 | splitting gives at least one piece, and no piece contains the separator |
| Text.JoinSplit | main.py:283 | joining the pieces of a split with the separator gives back the input |
| Text.SplitJoin | main.py:283 | splitting a join of separator-free pieces gives back the pieces |
| Text.NatToString | main.py:177 | `str(n)` is a non-empty string of decimal digits with no leading zero |
| Text.ParseNatToString | main.py:177 | reading back the decimal rendering of `n` gives `n` |
| Text.NatToStringInjective | main.py:177 | different page numbers have different `page_no` texts |
| Text.IntToString | main.py:181 | `str(i)` for an integer, as `str(int(time.time()))` renders a timestamp: non-empty, and it starts with `-` exactly when `i` is negative |
| JsonValue.FieldText | main.py:134 | the definition of the `str()` an f-string applies to a field value: the text of a string, the decimal of an integer, `True`/`False`, `None`; lists and dicts are listed under Left out |
| JsonValue.Contains | main.py:190-192 | the definition of `key in x`: a key test on a dict, an element test on a list, a substring test on a string, `TypeError` otherwise; its agreement with `[]` is JsonValue.GetAgreesWithIndex |
| JsonValue.IsSubstring | main.py:190-192 | Python's `in` on a `str`, used when `res` or `forum_list` is a string; JsonValue.IsSubstringAt proves it is occurrence at some position |
| JsonValue.IsSubstringAt | main.py:190-192 | `needle in hay` holds exactly when `needle` starts at some position of `hay`, so the empty string is in every string |
| JsonValue.Get | main.py:200 | the definition of `x.get(key, default)`: the value or the default on a dict, `AttributeError` on anything else; related to `in` and `[]` by JsonValue.GetAgreesWithIndex |
| JsonValue.Index | main.py:151 | `x[key]` succeeds exactly on a dict holding `key` and gives its value; otherwise it raises `KeyError` on a dict and `TypeError` on anything else |
| JsonValue.GetAgreesWithIndex | main.py:200 | `.get` succeeds exactly on dicts; on a dict, `in` says whether `[]` succeeds, and `.get` returns the value `[]` would return or else the default |
| Signer.Sort | main.py:133 | `sorted(keys)` keeps the number of keys; Signer.SortElements and Signer.SortSorted prove it is the keys in increasing order |
| Signer.Signature | main.py:133-135 | the definition of the `sign` value: the uppercase hex of the digest of the sorted `key=value` string followed by the fixed secret; Signer.SignatureIgnoresOrder and Signer.CanonicalSensitive state its properties |
| Signer.Less | main.py:133 | the order `sorted` uses on keys, Python's `<` on `str`; Signer.LessLexicographic proves it lexicographic over code points with a proper prefix first |
| Signer.LessLexicographic | main.py:133 | `a < b` exactly when `a` has the smaller code point at the first position where they differ, or `a` is a proper prefix of `b` |
| Signer.LessTransitive | main.py:133 | Python's string order is transitive |
| Signer.LessConnected | main.py:133 | any two different strings are ordered one way or the other |
| Signer.LessAsymmetric | main.py:133 | no two strings are each less than the other |
| Signer.InsertElements | main.py:133 | one insertion step adds exactly the inserted key |
| Signer.InsertSorted | main.py:133 | inserting a new key into a strictly sorted list keeps it strictly sorted |
| Signer.SortElements | main.py:133 | `sorted(keys)` holds exactly the keys |
| Signer.SortSorted | main.py:133 | `sorted(keys)` of distinct keys is strictly increasing |
| Signer.SortedUnique | main.py:133 | two strictly sorted lists with the same elements are equal |
| Signer.HexUpper | main.py:135 | `hexdigest().upper()` has two characters per byte, all of them `0-9` or `A-F` |
| Signer.HexDigit | main.py:135 | each digit is an uppercase hex character |
| Signer.HexValueDigit | main.py:135 | an uppercase hex digit reads back to its value |
| Signer.ParseHexUpper | main.py:135 | the uppercase hex rendering reads back to the digest bytes |
| Signer.SignatureIgnoresOrder | main.py:132-135 | two dicts with the same entries get the same `sign`, whatever order their keys were inserted in |
| Signer.Pairs | main.py:133-134 | the definition of the `f"{key}={data[key]}"` concatenation over the keys in the order given |
| Signer.Canonical | main.py:133-134 | the definition of the hashed text before the secret: Signer.Pairs over the sorted keys |
| Signer.PairsAgree | main.py:133-134 | the concatenation depends only on the entries of the keys it lists |
| Signer.AppendDiffers | main.py:135 | appending the same suffix to two different strings keeps them different |
| Signer.PairsSensitive | main.py:133-134 | changing the value of one key changes the `key=value` concatenation |
| Signer.CanonicalSensitive | main.py:133-135 | changing any one value changes the string that is hashed |
| Signer.Without | main.py:136 | the keys other than `k`, each once when the input has no duplicates; with Signer.WithoutAppended it undoes the append of `sign` |
| Signer.Dict.constructor | main.py:170 | a new dict is empty |
| Signer.Dict.Put | main.py:136 | `d[k] = v` sets the entry; a new key goes last and an existing key keeps its place |
| Signer.Dict.Update | main.py:234-241 | `d.update(pairs)` assigns the pairs in order and keeps the dict well formed |
| Signer.InsertedTracksAssigned | main.py:234-241 | after the updates, the insertion order lists exactly the keys, each once |
| Signer.AssignedDistinct | main.py:234-241 | a key that no later pair assigns again keeps the value of its pair |
| Signer.Assigned | main.py:234-241 | the definition of the entries after `update` assigns the pairs in order: a later assignment of a key overrides an earlier one (Signer.AssignedDistinct) |
| Signer.Inserted | main.py:234-241 | the definition of the key order after the same assignments: a new key goes last, an existing key keeps its place (Signer.InsertedTracksAssigned) |
| Signer.SignedEntries | main.py:136 | the definition of the entries of a dict built from the pairs and then signed: the assigned entries with `sign` set to Signer.Signature over them |
| Signer.SignedEntriesHold | main.py:132-137 | after signing, every field of the request still has its value |
| Signer.SignedEntriesVerify | main.py:132-137 | the dict built from fields other than `sign` and then signed passes the signature recomputation over its own other entries |
| Signer.SignedRequest | main.py:184 | building a dict from the fields and signing it gives the signed entries |
| Signer.EncodeData | main.py:126-137 | signs the dict in place and returns the same object; every entry keeps its value, `sign` is the signature of the old entries, and a new `sign` key goes last |
| Signer.SignedVerifies | main.py:132-137 | a dict without `sign` that is then signed passes the signature recomputation over its other entries, and its keys stay distinct |
| Signer.WithoutAbsent | main.py:136 | removing a key that is not there changes nothing |
| Signer.WithoutAppended | main.py:136 | removing the key just appended gives the keys from before |
| Transport.RaisesForStatus | main.py:93 | the definition of the statuses `raise_for_status` rejects: 400 to 599 |
| Transport.Accepted | main.py:88-98 | the definition of an attempt that ends the loop: an answer whose status does not raise and whose body is not blank after `strip()` |
| Transport.FirstAccepted | main.py:86-98 | the first attempt that is answered, has a status that does not raise and has a non-blank body, with every earlier attempt rejected; when there is none, every attempt is rejected |
| Transport.Upto | main.py:102-104 | the backoff exponents `0, 1, …, n-1` |
| Transport.SafeRequest | main.py:68-107 | returns the first accepted answer after exactly that many attempts, sleeping with exponents `0 .. i-1`; when no attempt is accepted, raises after `retry` attempts and `retry - 1` sleeps |
| Transport.JsonReply | main.py:119-124 | the definition of what `get_json_response` returns or raises: the transport's exhaustion error, `JsonDecodeError` for the first accepted body that does not decode, or that body decoded |
| Transport.GetJsonResponse | main.py:109-124 | returns `JsonReply`; makes exactly as many attempts and sleeps as `safe_request` with three attempts (the first accepted attempt plus one, or three attempts and two sleeps), so a decode failure is never retried, and that failure is the accepted attempt's body not decoding |
| Collector.PageSizeRendered | main.py:167-178 | `str(page_size)` is `"200"` |
| Collector.PageRequest | main.py:170-183 | the definition of the list request's dict literal, in its order: `BDUSS`, the fixed client fields, `page_no = str(page_no)`, `page_size`, the device fields, `timestamp`, `vcode_tag` |
| Collector.PageForm | main.py:184 | the definition of the signed list request: `encodeData` of Collector.PageRequest |
| Collector.SendPage | main.py:170-184 | builds and signs the list request of one page |
| Collector.PageRequestFields | main.py:170-184 | the signed list request carries `page_no = str(page_no)`, `page_size = "200"` and the account's `BDUSS` |
| Collector.FieldAt | main.py:170-184 | every field of the request literal reaches the signed form unchanged |
| Collector.PageRequestVerifies | main.py:184 | the signed dict of every list request, all of whose values are strings, passes the signature recomputation over its other entries |
| Collector.Shape | main.py:194-197 | the definition of what one subgroup value adds: a list's items, a dict as one item, nothing otherwise |
| Collector.Groups | main.py:191-197 | the definition of flattening the subgroups in the order given: a list is extended, a dict appended, anything else ignored, and a raise stops the rest; its properties are Collector.DictForumListOrder and Collector.GroupsSticky |
| Collector.PageItems | main.py:190-197 | the definition of one page's items: nothing when `forum_list` is absent, a raise when `in` fails, otherwise the two subgroups flattened |
| Collector.Step | main.py:186-208 | the definition of one page's outcome: the items it adds, and whether the loop goes on (`has_more == "1"`), stops, or stops on an exception |
| Collector.Collect | main.py:169-211 | the definition of the returned list: each requested page's items, up to and including the first page that does not continue; Collector.CollectStopsAt and Collector.RaisedPageAddsNothing state its properties |
| Collector.Requests | main.py:169-208 | `get_favorite` sends at least one list request and never more than there are pages |
| Collector.SentRequests | main.py:170-184 | one list request per page sent, in order |
| Collector.Outcomes | main.py:169-206 | there is one outcome per page |
| Collector.OutcomeAt | main.py:169-206 | page `k`'s outcome depends on page `k` alone |
| Collector.OutcomesAre | main.py:169-206 | the outcome list matches the pages one by one |
| Collector.EndsAfterMore | main.py:169-201 | while every page so far has reported more pages, another page follows |
| Collector.AllMoreBefore | main.py:200-204 | pages before the one that stops the loop all report more pages |
| Collector.CollectStopsAt | main.py:169-211 | when page `n` is the first not to report more, pages `1 .. n+1` are requested and their items are returned in page order |
| Collector.AllMoreTail | main.py:200-204 | dropping the first page of a run of pages that report more leaves such a run |
| Collector.AddedBeforeTail | main.py:190-197 | the items of the first `n` pages are the first page's items followed by those of the next `n - 1` |
| Collector.GroupsRaisedAddsNothing | main.py:190-197 | looking up a subgroup raises only when `forum_list` is not a dict, and then nothing has been added |
| Collector.RaisedPageAddsNothing | main.py:186-208 | a page whose handling raises adds no items, so the result holds exactly the earlier pages' items |
| Collector.DictForumListOrder | main.py:190-197 | with a dict `forum_list`, the `non-gconforum` items come before the `gconforum` items; a list is extended, a dict is appended as one item, and anything else adds nothing |
| Collector.FlattenInto | main.py:190-197 | the page's items are appended to the growing list, and the result says whether a look-up raised |
| Collector.GroupsSticky | main.py:190-197 | once a subgroup look-up has raised, the later subgroups are not looked at |
| Collector.SentRequestAt | main.py:170-184 | the `k`-th list request asks for page `k + 1`, with that page's timestamp |
| Collector.HandleReply | main.py:186-206 | one page's reply adds that page's items, then continues, stops, or stops on an exception |
| Collector.FetchPage | main.py:169-206 | one iteration sends the request for its page and handles that page's reply |
| Collector.GetFavorite | main.py:158-211 | returns the items of every page up to the first that stops the loop, in page order; sends one request per such page (`page_no` 1, 2, …); pauses once between consecutive requests |
| SignAction.SignRequest | main.py:234-241 | the definition of the sign request's fields: `SIGN_DATA` (the constant `BaseFields`, five fixed client fields), then the credential, the `str()` of the forum id, the forum name and `tbs`, and the timestamp |
| SignAction.Classify | main.py:247-256 | the definition of the reply's verdict by `error_code`; SignAction.SignedExactly, SignAction.CodeDecides and SignAction.ErrorValueExactly state its cases |
| SignAction.Outcome | main.py:244-262 | the definition of what `client_sign` returns for the reply its request received: the reply, or `{'error': …}` for what was raised inside the `try` |
| SignAction.SignForm | main.py:242 | the definition of the signed sign request: `encodeData` applied to SignAction.SignRequest |
| SignAction.SignFieldAt | main.py:234-242 | every field of the sign request reaches the signed form unchanged |
| SignAction.SignFormFields | main.py:234-242 | the signed sign request carries the credential and the `str()` of the forum id, the forum name and `tbs` |
| SignAction.SignFormVerifies | main.py:242 | the signed dict `encodeData` returns for a sign request passes the signature recomputation over its other entries; what is posted is not modelled (see Left out) |
| SignAction.ClientSign | main.py:213-262 | posts the sign request signed with exactly the given credential, token, forum and timestamp, classifies the reply, and returns `Outcome`: the reply, or an error value when anything inside the `try` raised |
| SignAction.SignedExactly | main.py:247-248 | a sign-in succeeds exactly when the reply is a dict with `error_code` `"0"` and a dict `user_info` that holds `user_sign_rank`; the verdict carries that rank |
| SignAction.CodeDecides | main.py:251-256 | for a dict reply, `"160002"` means already signed and any other code but `"0"` means failure; the message defaults to the fixed text for each case |
| SignAction.ErrorValueExactly | main.py:244-262 | an error value comes back exactly when the transport failed, the reply is not a dict, or a success reply lacks its rank; otherwise the reply itself comes back |
| SignAction.SuccessWithoutUserInfo | main.py:248 | a success code without `user_info` ends in the `KeyError` of the look-up, returned as an error value |
| Driver.ValidBduss | main.py:64-66 | the definition of `validate_bduss`: longer than 20 characters and free of `=`; Driver.BdussListSound and Driver.CookieRoundTrip rely on it |
| Driver.Credentials | main.py:283 | the comprehension keeps each piece's stripped text when it validates, so it never yields more credentials than pieces |
| Driver.BdussList | main.py:283 | the definition of the credential list: the setting split at `#`, then Driver.Credentials; Driver.BdussListSound and Driver.BdussListJoin state its properties |
| Driver.Cookie | main.py:147 | the definition of the cookie header value `BDUSS=<credential>`; Driver.CookieRoundTrip reads the credential back from it |
| Driver.CookieRoundTrip | main.py:147 | the cookie of a valid credential splits at `=` into the name and the credential |
| Driver.CredentialsAppend | main.py:283 | the credential list of a concatenation is the lists of the two parts, in order |
| Driver.CredentialOfPiece | main.py:283 | a piece contributes its stripped text exactly when `validate_bduss` accepts that text |
| Driver.CredentialsSound | main.py:283 | every listed credential is valid, stripped and free of `#` |
| Driver.BdussListSound | main.py:64-66 | every credential read from the setting is longer than 20 characters, free of `=` and `#`, and stripped |
| Driver.BdussListJoin | main.py:283 | valid credentials joined by `#` are read back as they were, in the same order |
| Driver.KeptAll | main.py:283 | a list of valid, stripped pieces is kept whole |
| Driver.EmptySettingNoAccounts | main.py:278-286 | an empty setting gives no credential, so `main`'s two early returns agree |
| Driver.TbsOf | main.py:149-156 | the definition of what `get_tbs` returns or raises: the transport's exception, or `result['tbs']`; Driver.TbsExactly states its cases |
| Driver.TbsExactly | main.py:149-156 | `get_tbs` gives a token exactly when the reply is a dict holding `tbs`; otherwise the transport's or the look-up's exception is raised |
| Driver.GetTbs | main.py:139-156 | one JSON request carrying the account's cookie `BDUSS=<credential>`, which splits back into the credential when it is valid; returns `result['tbs']` or raises as Driver.TbsOf says |
| Driver.ForumKeys | main.py:319-320 | the definition of `forum['id']` then `forum['name']`: both values, or the first look-up's exception |
| Driver.Reached | main.py:308-323 | the definition of where the per-forum loop stops: the number of forums from the front that have both keys |
| Driver.ReachedFirstMissing | main.py:308-323 | the loop reaches up to the first forum missing `id` or `name`, or to the end of the list |
| Driver.ReachedAt | main.py:308-323 | a position before which every forum has both keys, and that holds a forum missing a key or is the end, is where the loop stops |
| Driver.CallFor | main.py:316-323 | the definition of the call made for forum `i`: its `id` and `name`, `idx = i`, `count = len(forums)`, the form `encodeData` makes of the sign request with the account's credential and token, and `client_sign`'s result for that request's reply |
| Driver.ForumCalls | main.py:316-323 | one call per reached forum |
| Driver.ForumCallAt | main.py:316-323 | call `i` is the one for forum `i` (Driver.CallFor): its `id` and `name`, `idx = i`, `count = len(forums)`, the form signed with the account's credential, token and that request's timestamp, and what `client_sign` returned |
| Driver.Multiples | main.py:312 | the definition of the 1-based positions up to `n` that get the extra pause |
| Driver.MultiplesExactly | main.py:312-314 | the extra pause comes exactly at the 1-based positions divisible by 10, once each and in order; there are `n // 10` of them in the first `n` positions |
| Driver.SignRun | main.py:308-323 | the definition of the per-forum loop's record: the calls for the forums before the first one missing a key, the pauses taken, the positions of the extra pauses, and the exception that stopped it |
| Driver.SignForum | main.py:316-323 | looks up `id`, then `name`, then calls `client_sign` with the account's credential and token; with both keys, the calls so far grow by exactly this forum's call (the signed form `client_sign` posted and what it returned); a missing key is raised and adds nothing |
| Driver.SignForums | main.py:308-323 | the per-forum loop yields `SignRun`: a pause before every forum reached, an extra pause at every position divisible by 10, one `client_sign` call per forum in order, and a stop at the first forum missing a key |
| Driver.SignsInOrder | main.py:308-323 | every forum before the first one missing a key is signed exactly once, in list order, with `idx = i` and `count = len(forums)`; its form is signed with the account's credential, token and that request's timestamp, and its result is what `client_sign` made of the reply |
| Driver.RunUsesCredential | main.py:316-323 | every sign request of the loop carries the account's `BDUSS` and the `str()` of its `tbs` |
| Driver.AccountTurn | main.py:294-329 | the definition of one account's turn: the cookie, then the token, then the list requests and the forums collected, then the per-forum loop with this account's credential and token |
| Driver.TurnRunsLoop | main.py:294-325 | an account that got its token and a non-empty forum list runs the per-forum loop over exactly that list, with its own credential and the token `get_tbs` returned |
| Driver.TurnUsesCredential | main.py:296-323 | everything a turn sends carries that account's credential: the tbs cookie, the `BDUSS` field of every list request, and the `BDUSS` and `tbs` fields of every sign request |
| Driver.CompletedSignsAll | main.py:308-325 | a loop that ran to the end made one call per forum, paused before each, and took `len(forums) // 10` extra pauses |
| Driver.StoppedAtMissingKey | main.py:319-329 | a loop stopped by a forum missing a key also took that forum's pauses, and reports that forum's look-up exception |
| Driver.SkippedTurnSignsNothing | main.py:296-302 | an account whose token request failed, or whose forum list is empty, makes no sign call and takes no pause; without a token no list request is sent either |
| Driver.ProcessAccount | main.py:294-329 | one account's turn is exactly `AccountTurn` for its credential: token, then forum list, then the per-forum loop; any exception ends only that account's turn |
| Driver.SignAllAccounts | main.py:276-331 | report `i` is the turn of the `i`-th valid credential, with that credential in every request it sends; every credential gets its turn, in order, and a failing turn does not stop the others |

## Left out

- The HTTP session, URLs, headers, timeouts and the choice between GET and POST. The network is a function from attempt index to outcome, so the posted form does not influence the reply.
- MD5 and the UTF-8 encoding before it. They are the `digest` parameter; only the uppercase hex rendering is modelled.
- Sleep lengths, jitter, `smart_delay`'s timing arithmetic and `time.time()`. Sleeps are recorded by where they happen (the backoff exponent, the pause count, the positions of the extra pauses). Timestamps are inputs.
- Logging, reading the environment variable, and the top-level `KeyboardInterrupt` handler.
- JSON numbers other than integers, and the order of keys in decoded objects.
- JsonValue.FieldText: `str()` of a list or dict JSON value (when one is used as a forum id, forum name or token) is not rendered; it becomes the empty string. Form encoding of such values by the HTTP library is not modelled either.
- SignAction.SignFormVerifies: the signature check is over the signed dict `encodeData` returns, not over the posted body. When the forum `id`, the forum `name` or the token is JSON `null`, that field is hashed as the text `None`, but the HTTP library leaves `None`-valued fields out of a posted form. A receiver recomputing the signature over the fields it gets would then reject the request. The posted body is not modelled.
- Transport.SafeRequest: the final exception carries the attempt count only, as the code's message does; the last failure reason is not kept.
- Collector.GetFavorite: requires that some page of the supplied sequence stops the loop. A server that reports more pages forever makes the source loop forever, and that run is not modelled.
- Collector.GetFavorite: returns each list request as its field list. That the signed form of each is what is posted is stated by Collector.SendPage and Collector.PageRequestFields.
- Collector.PageRequestFields: `page_size` is the fixed text `"200"`, tied to `str(200)` by Collector.PageSizeRendered.
- SignAction.ClientSign: the value of `{'error': str(e)}` is modelled as the exception itself (`ErrorDict(e)`); exception message texts are not modelled.
- SignAction.ClientSign: `encodeData` runs before the `try`, and its UTF-8 encoding raises `UnicodeEncodeError` on a forum name, forum id or token holding a lone surrogate; that exception escapes `client_sign` and ends the account's turn. Strings here cannot hold lone surrogates, so this failure is not modelled.
- Driver.SignAllAccounts: an account's turn is modelled as one value (`AccountTurn`), and the lengths of its pauses are not modelled.
