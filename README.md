# MSDataUploader, modelled in Dafny

`MSDataUploader` (MSFramework/Common/MSDataUploader.swift) is the network client of MSFramework.
It runs remote database operations by POSTing form bodies to three PHP-style scripts under one
website, and it reads plain-text replies. This project models the deterministic protocol logic
inside its URLSession plumbing and proves properties of it:

- **Request framing.** There are three body builders. The first two are fixed-field bodies,
  `Password=…&Username=…[&Email=…]&SQLQuery=<enc>`. The third is a loop that appends
  `key=value&` for each dictionary entry and then cuts the last character. Every body is sent as
  POST, with a form-urlencoded Content-Type and a Content-Length that is the decimal UTF-8 byte
  count of the body.
- **SQL statement encoding.** The statement is percent-encoded with only letters and digits left
  alone, following section 2.1 of RFC 3986 with upper-case hex digits. If encoding yields nothing,
  the field falls back to `""`.
- **Reply classification.** Each completion handler looks at three things: the transport error,
  whether the response URL starts with `website`, and whether the decoded reply contains
  `"Failure"` or `"Success"`.
- **The uploader object.** It holds a lazily created session that every data task shares.
- **The authentication-challenge policy.** Every challenge gets the website credential
  (`websiteUserName` / `websiteUserPass`, kept for the session). The request bodies carry
  `databaseUserPass` instead.

Receiving-side partners state what the framing means. The partners are a UTF-8 decoder, a
percent-decoder, a field splitter (`&`, then the first `=`, with no further decoding of names
or values) and a decimal reader. For example, splitting the statement body gives back the
password, the user name and a query field that percent-decodes to exactly the statement
(`Requests.StatementRequestDelivers`).

Modules, one per concern of the source file:
`Wrappers` (Option), `Text` (prefix, substring, decimal), `Utf8`, `PercentEncoding`,
`DataSources` (the configuration record), `FormBody` (bodies and the key/value loop),
`Requests` (request framing), `Responses` (classification), `Uploader` (the class, its tasks and
the challenge answer).

Verify with
`dafny verify --resource-limit 2000000 --verification-time-limit 0 --warn-contradictory-assumptions *.dfy`.

## Model

| member | source | states |
|---|---|---|
| Text.HasPrefix | MSFramework/Common/MSDataUploader.swift:46 | `hasPrefix`, computed character by character, is true exactly when the declarative prefix relation holds |
| Text.Contains | MSFramework/Common/MSDataUploader.swift:52 | `contains`, a scan of the reply, is true exactly when the needle occurs at some index of the text |
| Text.Decimal | MSFramework/Common/MSDataUploader.swift:29 | `String(count)` is a non-empty string of decimal digits with no leading zero |
| Text.DecimalRoundTrip | MSFramework/Common/MSDataUploader.swift:29 | reading the Content-Length string back as a number gives the original count |
| Utf8.EncodeScalar | MSFramework/Common/MSDataUploader.swift:28 | one character becomes 1 to 4 bytes; it is a single byte, its own code, exactly for ASCII |
| Utf8.Encode | MSFramework/Common/MSDataUploader.swift:28 | `data(using: .utf8)` produces 1 to 4 bytes per character, one per character for ASCII text; `Utf8.DecodeEncode` shows it loses nothing |
| Utf8.ScalarRoundTrip | MSFramework/Common/MSDataUploader.swift:28 | a character's bytes are framed by their lead byte and stand for that character's scalar value |
| Utf8.DecodeEncode | MSFramework/Common/MSDataUploader.swift:28 | `data(using: .utf8)` loses nothing: the body bytes decode back to the post string |
| Utf8.EncodeAscii | MSFramework/Common/MSDataUploader.swift:28-29 | for ASCII text the byte count equals the character count and each byte is the character code |
| PercentEncoding.EncodeChar | MSFramework/Common/MSDataUploader.swift:120 | a character is left unchanged exactly when it is alphanumeric; otherwise it becomes `%XX` per UTF-8 byte |
| PercentEncoding.EscapedChar | MSFramework/Common/MSDataUploader.swift:26 | a character that is not alphanumeric becomes, for each byte of its UTF-8 encoding, `%` followed by two hex digits whose value is that byte |
| PercentEncoding.Encode | MSFramework/Common/MSDataUploader.swift:120 | the encoded statement holds only letters, digits and `%`, and an all-alphanumeric statement is unchanged |
| PercentEncoding.AddingPercentEncoding | MSFramework/Common/MSDataUploader.swift:120 | encoding the statement yields a value holding only letters, digits and `%`, which percent-decodes to exactly the statement's UTF-8 bytes |
| PercentEncoding.EncodeAppend | MSFramework/Common/MSDataUploader.swift:26 | encoding works character by character, so it distributes over concatenation |
| PercentEncoding.DecodeEncode | MSFramework/Common/MSDataUploader.swift:120 | percent-decoding the query field gives exactly the UTF-8 bytes of the statement |
| PercentEncoding.RecoverStatement | MSFramework/Common/MSDataUploader.swift:26 | percent-decoding and then UTF-8 decoding the field recovers the statement |
| PercentEncoding.EncodeSpaced | MSFramework/Common/MSDataUploader.swift:120 | in two alphanumeric words joined by a space, only the space is escaped, as `%20` |
| PercentEncoding.EncodeSelectOne | MSFramework/Common/MSDataUploader.swift:120 | `SELECT 1` encodes to `SELECT%201` |
| FormBody.SqlQueryValue | MSFramework/Common/MSDataUploader.swift:120 | the `?? ""` fallback: the query field is the encoded statement when encoding succeeds and the empty string when it yields nil |
| FormBody.StatementBody | MSFramework/Common/MSDataUploader.swift:120 | the statement body is the fields Password (database password), Username, SQLQuery, in that order, `&`-joined, credentials verbatim; `ParseStatementBody` shows that splitting the body gives them back |
| FormBody.CreateUserBody | MSFramework/Common/MSDataUploader.swift:26 | the create-user body is Password, Username, Email, SQLQuery, in that order, with the email verbatim; `ParseCreateUserBody` shows that splitting the body gives them back |
| FormBody.ParseStatementBody | MSFramework/Common/MSDataUploader.swift:120 | when the credentials hold no `&`, splitting the statement body on `&` and `=` gives back exactly those three fields, the last holding the encoded statement |
| FormBody.ParseCreateUserBody | MSFramework/Common/MSDataUploader.swift:26 | the same for the create-user body, with the email in third place |
| FormBody.ParseStatementBodyWithoutQuery | MSFramework/Common/MSDataUploader.swift:120 | when encoding yields nil, the SQLQuery field is still sent, and it is empty |
| FormBody.TerminatedJoined | MSFramework/Common/MSDataUploader.swift:69-74 | the loop's `key=value&…&` string is the `&`-joined fields plus exactly one trailing `&` |
| FormBody.ParseJoined | MSFramework/Common/MSDataUploader.swift:69-74 | splitting `&`-joined fields gives back the same fields in order, if no key holds `&` or `=` and no value holds `&` |
| FormBody.PairsInOrder | MSFramework/Common/MSDataUploader.swift:70 | iterating the dictionary visits every entry exactly once, each key with its own value, in the given iteration order, and nothing else |
| FormBody.KeyValueBody | MSFramework/Common/MSDataUploader.swift:69-74 | the loop and the cut build the entries as `k=v` joined by `&`, verbatim, with no trailing `&` (see Left out for the cut on grapheme clusters); an empty dictionary is excluded because the cut traps on it |
| FormBody.ParseKeyValueBody | MSFramework/Common/MSDataUploader.swift:69-74 | every dictionary entry appears in the key/value body as one field, nothing else does, and splitting the body on `&` and `=` gives the fields back |
| Requests.FormPost | MSFramework/Common/MSDataUploader.swift:28-35 | the request is POST with exactly the Content-Length and Content-Type headers; Content-Type is form-urlencoded; the body is the UTF-8 encoding of the post string (and decodes back to it); Content-Length is `String(count)` of the body bytes, which reads back as that count |
| Requests.CreateUserRequest | MSFramework/Common/MSDataUploader.swift:24-35 | the create-user request is a form POST to the create-user script whose body bytes decode to the create-user body; `CreateUserRequestDelivers` gives the fields that splitting its body yields |
| Requests.KeyValueRequest | MSFramework/Common/MSDataUploader.swift:67-85 | the key/value request is a form POST to the custom key/value script whose body bytes decode to the loop-built post string |
| Requests.StatementRequest | MSFramework/Common/MSDataUploader.swift:118-129 | the statement request is a form POST to the write script whose body bytes decode to the statement body; `StatementRequestDelivers` gives the fields that splitting its body yields |
| Requests.StatementRequestDelivers | MSFramework/Common/MSDataUploader.swift:118-129 | the statement request goes to the write path, carries the three fields, and its query decodes to the statement |
| Requests.CreateUserRequestDelivers | MSFramework/Common/MSDataUploader.swift:24-35 | the create-user request goes to the create-user path, carries the four fields, and its query decodes to the statement |
| Requests.AsciiContentLength | MSFramework/Common/MSDataUploader.swift:78-83 | for an ASCII body, Content-Length is the body's character count |
| Requests.ExampleStatementBody | MSFramework/Common/MSDataUploader.swift:120 | password `p`, user `u` and `SELECT 1` give `Password=p&Username=u&SQLQuery=SELECT%201` |
| Responses.FromWebsite | MSFramework/Common/MSDataUploader.swift:96 | the origin guard holds exactly when a response URL exists and has `website` as a prefix |
| Responses.CreateUserResult | MSFramework/Common/MSDataUploader.swift:37-59 | `Some` exactly when there is no error, the origin matches, the reply decodes and it does not contain "Failure"; the value is then the reply text |
| Responses.KeyValueResult | MSFramework/Common/MSDataUploader.swift:87-101 | true exactly when there is no error and the response URL starts with `website` |
| Responses.StatementResult | MSFramework/Common/MSDataUploader.swift:131-146 | true exactly when there is no error, the origin matches, the reply decodes and it contains "Success" |
| Responses.ForeignOriginFails | MSFramework/Common/MSDataUploader.swift:46 | a response from outside `website` fails all three operations, whatever the reply says |
| Responses.KeyValueIgnoresReply | MSFramework/Common/MSDataUploader.swift:96-101 | the key/value result does not depend on the reply at all |
| Responses.ClassificationsNest | MSFramework/Common/MSDataUploader.swift:140-146 | statement success and user creation each imply key/value success on the same outcome |
| Responses.ExampleStatementReply | MSFramework/Common/MSDataUploader.swift:140-146 | "OK-Success" from `https://svc.example.com/write.php` for website `https://svc.example.com` gives true |
| Uploader.Task.Complete | MSFramework/Common/MSDataUploader.swift:37-146 | each task's handler (the three completion closures at lines 37-59, 87-101 and 131-146) delivers the classification of its own operation, against the website captured when the call was made |
| Uploader.DataUploader.constructor | MSFramework/Common/MSDataUploader.swift:18 | a new uploader has no session yet and no tasks |
| Uploader.DataUploader.UploadSession | MSFramework/Common/MSDataUploader.swift:14-16 | the session is created from the configuration current at the first access, then reused unchanged |
| Uploader.DataUploader.CreateNewUser | MSFramework/Common/MSDataUploader.swift:20-62 | appends one task to the shared session, carrying the create-user request; a missing data source is excluded (it halts) |
| Uploader.DataUploader.UploadCustomQueries | MSFramework/Common/MSDataUploader.swift:64-104 | appends one task carrying the key/value request built by the loop |
| Uploader.DataUploader.UploadSqlStatement | MSFramework/Common/MSDataUploader.swift:114-149 | appends one task carrying the statement request |
| Uploader.SharedSessionScenario | MSFramework/Common/MSDataUploader.swift:14-16 | two calls on a fresh uploader share one session, made from the configuration of the first call |
| Uploader.AnswerChallenge | MSFramework/Common/MSDataUploader.swift:153-157 | every challenge is answered with use-credential: the website user name and website password, persisted for the session |
| Uploader.ChallengeUsesWebsitePassword | MSFramework/Common/MSDataUploader.swift:153-157 | the answer ignores the challenge and carries `websiteUserPass`, while the statement body's Password field carries `databaseUserPass` |

## Left out

- Network I/O is not modelled: URLSession, `dataTask`, `resume` and the server. A call records a `Task` holding its request. The transport outcome is an input to the classification functions: error, response URL and decoded text.
- `DispatchQueue.main.async` is not modelled. The handler is delivered on the main queue, exactly once per task. Scheduling and concurrency cannot be stated in this model.
- The optional `completion` (nothing is called when it is nil) and the debug `print` calls are left out. Neither affects any result.
- A missing data source halts the program (`fatalError`) in every operation and in the delegate. The model states this as `requires dataSource.Some?`; it is not behaviour of the model.
- `URL(string:)!.appendingPathComponent` is kept symbolic as `Endpoint(base, path)`. Foundation URL semantics, such as slash handling and the force-unwrap of an invalid URL, are not modelled.
- `String(data:encoding: .utf8)` on the reply is a foreign call. Its result is the `text: Option<string>` input, with `None` when there is no data or it does not decode.
- `MSSQL.formattedStatement` is an external formatter. The statement is an opaque `string`.
- PercentEncoding.Encode: escapes every non-ASCII character. Foundation's `CharacterSet.alphanumerics` covers the Unicode categories L*, M* and N*, so it leaves Unicode letters, combining marks and digits unescaped (U+0301 stays as it is there; the model writes `%CC%81`).
- PercentEncoding.AddingPercentEncoding: never yields nil. Foundation returns nil only for text that is not a sequence of Unicode scalar values, and a Dafny string cannot hold such text. The `?? ""` fallback is modelled in the body builders, which take the optional encoding (`FormBody.ParseStatementBodyWithoutQuery`).
- Text.HasPrefix: compares Unicode scalar values one at a time. Swift's `hasPrefix` compares grapheme clusters under canonical equivalence, so a URL whose next character combines with the last character of `website` is treated differently.
- Text.Contains: also compares scalar values. The needles used are the ASCII literals "Failure" and "Success".
- FormBody.ParseForm: splits a body on `&` and then each field at its first `=`, and decodes nothing else. A form-urlencoded server also turns `+` into a space and decodes `%XX` in every name and value. The uploader sends the credentials, the email and the key/value pairs unencoded, so a value holding `+` or `%` would be read differently by such a server. Only the SQLQuery field is safe, because it is percent-encoded. FormBody.ParseStatementBody, FormBody.ParseCreateUserBody, FormBody.ParseKeyValueBody, Requests.StatementRequestDelivers and Requests.CreateUserRequestDelivers therefore state what the split fields are, not what such a server reads.
- FormBody.KeyValueBody: cuts the last Unicode scalar of the loop's string, where Swift's `index(before: endIndex)` steps back one Character (an extended grapheme cluster). The two differ when the last value ends in a Prepend-class character (U+0600 to U+0605, U+06DD, U+070F, ...), which joins the trailing `&` into one Character: for `["k": "v\u{0600}"]` Swift sends `k=v` and the model sends `k=v\u{0600}`.
- FormBody.PairsInOrder: takes the dictionary's iteration order as a parameter `order` (each key exactly once), because Swift leaves that order unspecified.
- Utf8.Decode is only a partner used to state that the body bytes carry the post string. It does not reject overlong forms, and it does not model Foundation's decoder.
- HTTP header names are case-insensitive in `URLRequest`. The headers are modelled as a map with exactly the two names the source sets.
