# ogn-go core, modelled in Dafny

ogn-go is a Go client for the APRS-over-TCP feed of the Open Glider Network.
It logs in to an APRS server, streams beacon lines, and reconnects after
failures. A separate `message` package routes each raw line to a decoder.
It does this by dispatching on the type marker embedded in the line.

This project models the sequential core of both parts as pure Dafny
functions and one method:

- **Type extraction** (`MessageBase`). This finds the marker in
  `sender>marker,rest`: the text between the first `>` and the first `,`
  after it.
- **Parser registry** (`MessageParser`). `Handle` registers a decoder and
  refuses duplicates. `Parse` extracts, looks up and dispatches. The
  registry is a `map` passed in and returned, not a package variable.
- **Typed errors** of the message package and their texts (`MessageErrors`).
- **Endpoint values** (`Endpoint`). These are the `host:port` address, the
  login line, and the password test.
- **Login confirmation** (`LoginResponse`). The fixed pattern
  `# logresp (?P<user>\w+) (?P<status>(verified)|(unverified)), server (?P<server>\w+)`
  is modelled by hand, with Go's unanchored, leftmost-first, greedy search.
  So is the group map that `unpackResponse` builds from the match.
- **Connection decisions** (`Connection`). This covers the accept/reject
  logic of `dial`, the bounded `reconnect` loop, and a sequential skeleton
  of the `Receive` supervisor. Network outcomes become inputs:
  - the connect result;
  - the greeting and response lines, each of which may fail to arrive;
  - one dial outcome per reconnect attempt;
  - one outcome per streaming session.

`Text` holds the string helpers these modules share. These are
single-character search, cutting at a space, the `\w` class, and `%d`
rendering. `Wrappers` holds `Option` and `Result`.

Go strings are byte strings, and the model uses `seq<char>`. The Go code
searches only for `>` and `,`. The model's own readers of its outputs also
search for `:` (`SplitUrl`) and for a space (`ReadLogin`). All four are
ASCII, so both views cut out the same substrings.

## Model

| member | source | states |
|---|---|---|
| MessageBase.ExtractMessageType | message/base.go:81-93 | Fails exactly when the line has no `>` or has no `,` after its first `>`. The failure is `InvalidFormat` carrying the whole line. A returned marker has no `,` and is at least two characters shorter than the line. |
| MessageBase.ExtractDecomposes | message/base.go:87-92 | A successful extraction splits the line as `sender>marker,rest`. Here `sender` has no `>`, the marker has no `,`, and the marker is a substring of the line. |
| MessageBase.ExtractRoundTrip | message/base.go:81-92 | When `sender` has no `>` and `marker` has no `,`, extracting from `sender>marker,rest` gives back `marker`. |
| MessageBase.ExtractCharacterization | message/base.go:81-92 | Extraction returns `marker` if and only if the line splits as `sender>marker,rest`. It fails exactly when no such split exists. |
| MessageBase.ExtractNoCommaAfterArrow | message/base.go:87-90 | A line with a `>` but no `,` after its first `>` is `InvalidFormat` of the whole line. A `,` before the `>` does not count. |
| MessageBase.ExtractIgnoresRest | message/base.go:87-92 | The marker does not depend on the text after its terminating comma. |
| MessageBase.ExtractEmptyMarker | message/base.go:92 | A `,` right after the first `>` gives the empty marker, not an error. |
| MessageBase.ExtractExampleType | message/base_test.go:13-17 | `FLRDD89C9>TYPE,qAS` has marker `TYPE`. |
| MessageBase.ExtractExampleMissingStart | message/base_test.go:19-22 | `FLRDD89C9TYPE,qAS` is malformed. |
| MessageBase.ExtractExampleMissingEnd | message/base_test.go:24-27 | `FLRDD89C9>TYPEqAS` is malformed. |
| MessageErrors.ErrorText | message/errors.go:12-30 | Each error text is its fixed prefix, then the carried fields verbatim in their fixed places. Each field can be read back from the text by position. |
| MessageErrors.ErrorTextContainsFields | message/errors.go:12-30 | Every field an error carries appears in its text as a substring. |
| MessageErrors.InvalidFormatTextIsDistinct | message/errors.go:12-30 | A malformed-message text never equals a registry error's text. |
| MessageErrors.RegistryTextsCanCoincide | message/errors.go:12-22 | A duplicate-registration text and a not-found text can be the same string, so only the error kind tells them apart. |
| MessageParser.Handle | message/parser.go:32-39 | Returns an error exactly when the name is already registered, and that error is `ParserExists` for the name. The key set becomes the old keys plus the name. Existing entries never change. A fresh name maps to the given decoder. |
| MessageParser.HandleIdempotent | message/parser.go:32-39 | Two `Handle` calls for one name leave the registry exactly as the first call left it. The second call returns `ParserExists`. |
| MessageParser.FirstDecoderStays | message/parser.go:33-35 | After a duplicate registration, dispatch still reaches the decoder registered first. |
| MessageParser.Parse | message/parser.go:5-20 | A malformed line gives a nil value and `InvalidFormat`. A registered marker gives its decoder's reply to the whole line, unchanged. An unregistered marker gives exactly a nil value and `ParserNotFound` for the marker, with an empty `message` field. |
| MessageParser.ParseMalformedIgnoresRegistry | message/parser.go:8-11 | A malformed line gets the same reply whatever the registry holds, so no decoder is consulted. |
| MessageParser.ParseReadsOnlyMarker | message/parser.go:13-17 | Two registries that agree on the line's marker give the same reply. Dispatch reads nothing else. |
| MessageParser.ParseDispatches | message/parser.go:13-14 | For `sender>marker,rest` with a registered marker, the reply is that decoder's reply to the full line. |
| MessageParser.ParseNotFound | message/parser.go:15-16 | For `sender>marker,rest` with an unregistered marker, the reply is nil with `ParserNotFound(marker, "")`. |
| MessageParser.ParseExample | message/parser.go:5-20 | A beacon with marker `APRS` goes to the decoder registered for `APRS`. |
| MessageParser.ParseExampleNotFound | message/parser.go:13-17 | With an empty registry the same beacon gives `ParserNotFound` for `APRS`. |
| Endpoint.Url | aprs.go:79-81 | The address starts with the host and a colon. What follows reads back as the port in decimal, including a negative port. The read-back accepts only `%d` output, so by `Text.DecimalCanonical` the port text is fixed by the port. |
| Text.DecimalCanonical | aprs.go:80 | A string that the decimal reader reads as `n` is exactly the `%d` rendering of `n`. Leading zeros and `-0` are refused. |
| Endpoint.UrlRoundTrip | aprs.go:79-81 | Splitting the address at its last colon gives back host and port, even when the host has colons of its own. |
| Endpoint.AuthString | aprs.go:89-97 | The line starts with `user `. Its length is that of the fixed words plus the fields, plus one space and the filter only when the filter is non-empty. It ends with the version if there is no filter, and with a space and the filter if there is one. |
| Endpoint.AuthStringRoundTrip | aprs.go:89-97 | The login line reads back, field by field, as user, password, product, version and filter. An empty filter leaves no trailing field. |
| LoginResponse.MatchPrefixIff | aprs.go:43 | The hand-written matcher finds groups `c` at the start of a string if and only if the reference definition holds. That definition is: the rendered confirmation is a prefix, the user and server are non-empty `\w` runs, the status is one of the two, and the server run is maximal. |
| LoginResponse.FindFrom | aprs.go:257 | The search returns the first start position with a match, and no earlier position has one. It returns nothing exactly when no position from the start onward has a match. |
| LoginResponse.CollectGroups | aprs.go:262-266 | Filling the map by sub-expression name leaves four keys. The key `""` ends up holding the last unnamed submatch, `(unverified)`. |
| LoginResponse.UnpackResponse | aprs.go:254-269 | On a match the map has keys `""`, `user`, `status` and `server`. The status is `verified` or `unverified`. User and server are non-empty `\w` runs. `""` holds `unverified` or the empty string. |
| LoginResponse.UnpackNoneIff | aprs.go:257-260 | The result is nil if and only if no position of the line starts a match of the pattern. |
| LoginResponse.UnpackIsLeftmostMatch | aprs.go:254-266 | The returned groups are those of a match at some position, and no earlier position starts a match. |
| LoginResponse.UnpackRendered | aprs.go:43 | A confirmation rendered from valid groups unpacks to those groups. This holds whatever follows it, as long as it does not extend the server name. |
| Connection.Dial | aprs.go:206-235 | A transport error is returned unchanged. A failed greeting or response read is `ReadFailed`. A response that does not match is `InvalidResponse`. With a real password, a status other than `verified` is `LoginFailed`. Success holds exactly in the remaining case, and returns the dialled connection. |
| Connection.DialIgnoresGreeting | aprs.go:212-216 | The greeting's content never changes the outcome. |
| Connection.DialRejectsUnverified | aprs.go:229-232 | With a real password, an `unverified` confirmation is `LoginFailed`. |
| Connection.DialAcceptsVerified | aprs.go:229-234 | A `verified` confirmation succeeds, with or without a password. |
| Connection.DialAnonymous | aprs.go:229-234 | With an empty or `-1` password, either status succeeds. |
| Connection.DialPasswordDecides | aprs.go:229-234 | For a well-formed confirmation line, the login succeeds if and only if the password is empty or `-1`, or the status is `verified`. In every other case it is `LoginFailed`. The password test is `HasPassword` (aprs.go:99-101). |
| Connection.DialExample | aprs.go:206-235 | Any greeting followed by `# logresp bob verified, server TEST` logs in with a real password. |
| Connection.SentinelTextsDistinct | aprs.go:34-40 | The five sentinel errors have pairwise different texts. |
| Connection.Reconnect | aprs.go:188-204 | At most 6 dials are made. The sleep before attempt `i` is `i` seconds. Every attempt before the last one made failed. A success is returned at once as that dial's result. `ReconnectFailed` is returned exactly when all 6 dials fail, and then all 6 sleeps were taken. |
| Connection.ReconnectSleepsIncrease | aprs.go:189-192 | The sleeps of one episode strictly increase and add up to at most 15 seconds. |
| Connection.ErrorText | aprs.go:34-40 | A socket error keeps its own text. Each sentinel has a fixed, non-empty text. |
| Connection.ReceiveAsWritten | aprs.go:115-137 | As written: a failed first dial is returned. Without reconnection the first session's result is returned. With reconnection on, the loop runs on if and only if no session was cancelled. A returned error is then the result of the first session after which the context was done, never a reconnect's error. |
| Connection.ReceiveCorrected | aprs.go:115-137 | Corrected: a failed first dial is returned. Without reconnection the first session's result is returned. The loop runs on if and only if every session was left uncancelled and every reconnect succeeded. Otherwise it stops at the first episode that did not go on. It returns that session's result if the context was done, and else that episode's reconnect error. |
| Connection.AsWrittenIgnoresReconnectFailure | aprs.go:115-137 | As written, with reconnection on, `Receive` never returns `ReconnectFailed`, however many reconnects fail. |
| Connection.AsWrittenExhaustedReconnectContinues | aprs.go:118-134 | As written, a read timeout followed by an exhausted reconnect leaves `Receive` still looping. |
| Connection.ReceiveSurfacesReconnectFailure | aprs.go:115-137 | Corrected: with reconnection on and no cancellation, `ReceiveCorrected` returns the error of the first failed reconnect. |
| Connection.ReceiveExhaustedReconnectReturns | aprs.go:118-134 | Corrected: `ReceiveCorrected` returns `ReconnectFailed` on the same run. |
| Connection.ReceiveCancelled | aprs.go:118-137 | When the context is done after session `k`, both versions return session `k`'s result, nil included, before any reconnect. This needs `k` to be the first session (always so without reconnection), or every earlier episode to have gone on. |
| Connection.LoopAsWrittenCancelledAt | aprs.go:118-137 | As written, with reconnection on, the first cancelled session's result is returned, even when earlier reconnects failed. |

## Left out

- Goroutine and channel machinery is not modelled, because its whole point is concurrency. This covers `receiveInConnection`, `receiveMessage`, `keepAlive`, `Read`, the 15-second read timeout, the 180-second keepalive ticker, context cancellation and panic recovery. `Receive` sees each session only through its outcome: the error it returned and whether the context was done.
- Real TCP and textproto I/O in `dial` is not modelled. The connect result and the two lines read become inputs.
- The write of the login line is not modelled, and neither is its ignored error. `PrintfLine` receives the login string as a format string, so a `%` in the credentials or filter would be reinterpreted. The handshake decision does not depend on what was sent, so `AuthString` models the string the settings produce, not the bytes on the wire.
- `dial` does not close a connection whose handshake failed. Resource release is outside the model.
- The logged backoff `math.Pow(2, i)` is not modelled, because it is only printed and the sleep uses `i` seconds. `Reconnect` records the sleeps actually taken.
- Logging, the goroutine-count print and the unused `bufferSize` constant are not modelled. None of them affects behaviour.
- `AircraftBase` and `ReceiverBase` (message/base.go) are interfaces with no implementation in aprs.go or the message package, so they are not modelled.
- `Package` and `Version` are not defined in aprs.go or the message package. They are the `product` and `version` parameters of `AuthString`.
- The general regular-expression engine is not modelled. Only the one login pattern is, by hand.
- The package-level `registeredParsers` map is not modelled as a global. It is passed explicitly, so `Parse` cannot change it by construction.
- The `NewServer`, `NewSettings` and `Connect` constructors are not modelled separately. They become the `Server` and `Settings` datatype constructors and the `withReconnect` parameter of `Receive`.
- The CLI in `cmd/ogn-cli/main.go` is not modelled.
- Connection.ReceiveCorrected and ReceiveAsWritten run over a finite list of session episodes. When the list runs out while the loop would continue, the result is `Running`; what happens after the last listed episode is not modelled.
- Endpoint.AuthStringRoundTrip is stated only for user, password, product and version without spaces. A space in any of them makes the login line ambiguous to read back.
- MessageParser.Parse leaves `ParserNotFound`'s `message` field empty, as the code does.
- MessageParser.Handle accepts a nil `ParserFunc` in Go, and `Parse` then panics when it calls it (message/parser.go:13-14). A `Decoder` is a total function, so the model cannot represent a nil decoder or that panic.
- MessageParser decoders are pure functions of the line. A Go decoder may have side effects, and those are not modelled.

## Findings

| source | as written | input that shows it | evidently intended | confidence | as-written member | corrected member |
|---|---|---|---|---|---|---|
| aprs.go:119-133 | `err :=` inside the loop body declares a new `err`. So `conn, err = ac.reconnect()` assigns the inner variable, and the loop condition `err == nil` reads the outer one, which is still nil. A failed reconnect does not end the loop. It runs again with a nil connection. | Reconnection on, first dial succeeds, the session ends with `ReadTimeoutError`, all 6 reconnect attempts fail, no cancellation. `Receive` keeps looping instead of returning `ReconnectFailedError` (`Connection.AsWrittenExhaustedReconnectContinues`, and in general `Connection.AsWrittenIgnoresReconnectFailure`). | Return `ReconnectFailedError` once reconnection is exhausted. | high; not executed | Connection.ReceiveAsWritten | Connection.ReceiveCorrected |
