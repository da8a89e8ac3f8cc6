# gory-proxy routing and control logic in Dafny

gory-proxy is a reverse proxy that routes a client to a backend by the
first segment of the request path. A backend can register itself in
three ways, depending on the draft: a binary tunnel handshake, a command
over a small control protocol, or an HTTP form. This project models
every draft's routing and control decisions as pure functions over
octet sequences, strings and finite maps, and proves what they promise.

Each module follows one part of the program:

- `Base`: optional values, octets, the text view of a byte buffer, Go's
  `\w`, first-occurrence search and replacement, and decimal printing and
  parsing.
- `Frames`: the two-octet magics and the three response frames of the
  binary handshakes (main.go).
- `ProxyTypes`: `ServerInfo`, the route table keyed by name, a decoded
  command and a decoded configuration.
- `Handshake`: `createTunnel` and `serveCommand` of main.go.
- `RequestLine`: the pattern `^\w+ /([^/ ]+)?(/.+)? HTTP`. It has two
  parts: a scanner (`SiteName`) and the language it is meant to
  recognise (`Matches`). `SiteNameIff` proves the two agree.
- `Rewrite`: how a request is rewritten before forwarding. The routing
  segment is stripped, both by position and as the source writes it, and
  a `Forwarded` field is inserted.
- `Dispatcher`: `handleConn` of main.go and of server/server.go as one
  function. A `Dialect` records where the two files differ.
- `ConfigReload`: the decision `watchConfigFile` takes after reading the
  configuration again.
- `ServerDraft`: the older tunnel handshake of server/server.go, which
  packs both lengths into one 16-bit value.
- `SyncMaps`: the `SyncMap` wrapper of sync_map.go.
- `Registry`: the HTTP-registered drafts' table. It covers
  insert-if-absent with a name-clash rollback, deletion by key or by the
  first matching address, the two-strike health sweep and the listing
  page's links.
- `Listeners`: the form handlers of p2/proxy2.go and
  server/srvr_listener.go, and `serversHandler` of
  server/socket_server/srvr_listener.go.
- `PathDispatch`: the `^(/\w*)` dispatch of p2/proxy2.go,
  server/proxy.go and server/socket_server/proxy.go, and their status
  lines.
- `SlugProxy`: proxy.go. It covers the first-slug scan, `/slug/`
  routes, the single-strike probe and tab-separated registration
  messages.
- `Simple`: `handleConn` of simple/main.go.
- `PingPong`: the liveness protocol of server/main.go. It covers the
  4-digit length framing, registration, the reader goroutine and the
  ping/pong loop.
- `Connector`: the argument checks of connector.py.
- `Echo`: `reverse` of tests/servers/echo.go.

Several drafts do not compile, or contradict their own layout comments.
Where that happens, the model makes the divergence an explicit choice. A
flag or a pair of functions selects the behaviour as written or the
behaviour as documented. Both are kept, and a lemma relates them (see
"## Findings").

Inputs the model takes instead of computing them:

- What a read returned, as `Option<seq<byte>>` or `Option<string>`. None
  means a failed read.
- The client's address (`peer`).
- A decoded command, as a `decode` function.
- A parsed URL (`Url`).
- Form values.
- The outcome of each liveness probe (`Probe`).
- The visiting order of a `sync.Map.Range` pass, as a sequence holding
  every key once.

Places where the layout comments or the project's description differ
from the code. The model follows the code in each case:

- main.go keys its route table by the bare site name (`Name`), not by
  "/" + name.
- In the HTTP-registered drafts, the name clash rollback deletes the
  entry just added (`server.Path`). It never deletes the older entry.
- main.go's `createTunnel` stops at an unfinished statement after the
  name check (line 381). The layout comment promises a success frame
  there, so the model replies with the success frame and marks the
  connection for publishing.

## Model

| member | source | states |
|---|---|---|
| Base.Text | main.go:375 | `string(b)`: one character per octet, in order, each with the octet's code |
| Base.Raw | main.go:575-577 | `[]byte(s)`: one octet per character, in order, each the character's code when below 256 |
| Base.RawText | main.go:370-375 | turning octets into a string and back gives the same octets |
| Base.BigEndian16 | main.go:398 | `binary.BigEndian.Uint16`: a value below 65536 whose high octet is the first and whose low octet is the second |
| Base.WordEnd | main.go:121 | `\w*` from a position: the end of the longest run of word characters |
| Base.WordEndIs | main.go:121 | that end is the only position with those two properties |
| Base.IndexFrom | main.go:280 | a reported position is at or after the start and holds the pattern |
| Base.IndexFromSpec | main.go:280 | no earlier position from the start holds the pattern, and None only when no position from the start does |
| Base.IndexOf | main.go:286-291 | `bytes.Index` and `bytes.IndexByte`: a reported position holds the pattern |
| Base.IndexOfSpec | main.go:286-291 | the reported position is the first occurrence, and None only when the pattern occurs nowhere |
| Base.IndexOfIs | main.go:280 | a position holding the pattern with no occurrence before it is the one reported |
| Base.ReplaceFirst | main.go:281-283 | `bytes.Replace(s, pat, rep, 1)`: the text is unchanged, or its length changes by exactly the difference of the two lengths |
| Base.ReplaceFirstAt | main.go:281-283 | the first occurrence is replaced and the text before and after it is kept |
| Base.DeleteFirst | main.go:281-283 | replacing the first occurrence with nothing deletes exactly it |
| Base.Decimal | server/socket_server/proxy.go:247-249 | `%d` of a non-negative int: at least one digit, only digits, and no leading zero except for zero itself |
| Base.DecimalRoundTrip | server/socket_server/proxy.go:247-249 | the printed digits read back as the number |
| Base.Decimal3 | server/proxy.go:61 | a three-digit status code prints as its three digits |
| Frames.SuccessResp | main.go:567-569 | the success frame is the magic followed by two octets, the first of them code 15 |
| Frames.InvalidPasswordResp | main.go:571-573 | the invalid-password frame is the magic followed by two octets, the first of them code 0 |
| Frames.ErrorResp | main.go:575-577 | the error frame is the magic, code 13, one length octet and the message |
| Frames.Encode | main.go:10-21 | every response frame starts with the two-octet magic and carries at least a code and a length octet |
| Frames.DecodeEncode | main.go:10-21 | a frame reads back as the response it encodes, if and only if it is not an error whose message is 256 octets or longer |
| Frames.ErrorFrameRoundTrip | main.go:575-577 | an error frame reads back as its message exactly when the message is shorter than 256 octets |
| Frames.MagicValues | main.go:551-557 | the tunnel and command magics differ; the documented values are 31623 and 3375; the value main.go writes for the tunnel magic is 39815 |
| Handshake.CreateTunnelWith | main.go:358-380 | the tunnel is published exactly when the reply is the success frame; every refusal leaves the registry unchanged; a body of two octets or more whose two lengths do not add up to the rest gets "content length mismatch"; a success adds exactly one new name, mapped to a tunnel entry |
| Handshake.TunnelReplyReadable | main.go:358-380 | every reply of the tunnel handshake decodes as a response frame |
| Handshake.TunnelTooShort | main.go:358-361 | a body shorter than two octets gets "malformed request" and registers nothing |
| Handshake.TunnelTrailingBytes | main.go:248 | an honest body followed by any further octets, such as the zero tail of a padded read buffer, gets "content length mismatch" whatever password it carries |
| Handshake.TunnelAccepted | main.go:369-380 | an honest tunnel with the right password and a free name is registered under exactly that name |
| Handshake.TunnelWrongPassword | main.go:369-373 | a wrong password gets the invalid-password frame and registers nothing |
| Handshake.TunnelNameTaken | main.go:376-380 | a name already registered gets "server name already exists" and leaves the registry as it was |
| Handshake.SwappedSlicesRejectHonestTunnel | main.go:370-375 | with main.go's slice order, an honest tunnel whose name differs from its password is always told the password is wrong |
| Handshake.Execute | main.go:418-446 | the shutdown effect happens exactly for "shutdown"; any registry change replies success; existing entries are never altered; a new entry is the command's own, non-tunnel, with a name and an address |
| Handshake.ServeCommandWith | main.go:393-417 | a body of four octets or more whose message length and password length do not add up to the rest gets "content length mismatch"; the registry changes, or the listener closes, only for a well-framed body whose message decodes, and then the reply is success; a command never adds a tunnel |
| Handshake.CommandTooShort | main.go:393-396 | a body shorter than four octets gets "malformed request" |
| Handshake.CommandMalformedJson | main.go:413-417 | an authenticated, well-framed command whose message does not decode gets "malformed request json" and changes nothing |
| Handshake.CommandAuthenticated | main.go:404-417 | a command from 127.0.0.1 runs with any password; from any other host it runs only with the right password, and otherwise gets the invalid-password frame |
| Handshake.AddOutcomes | main.go:419-431 | `add` refuses an empty name or address, a tunnel and a taken name, each with its own message and the registry unchanged; otherwise it adds exactly that backend |
| Handshake.RemoveIdempotent | main.go:432-433 | `remove` deletes only the named backend, replies success and is idempotent |
| Handshake.UnknownAction | main.go:442-444 | an unknown action gets "invalid action: " plus the action; the frame is readable only while that message fits the one-octet length |
| Handshake.PadOctetRejectsPasswords | main.go:398-403 | reading the password length from the pad octet makes every command that carries a password a length mismatch |
| RequestLine.SegmentEnd | main.go:121 | the end of the longest run of `[^/ ]` characters |
| RequestLine.SiteName | main.go:121 | group 1 of the request-line pattern never holds '/' or ' ' |
| RequestLine.HttpWitness | main.go:121 | when the scanner reports ` HTTP` on the line, an occurrence with no line feed before it exists |
| RequestLine.HttpFound | main.go:121 | any ` HTTP` reachable without crossing a line feed is found by the scanner |
| RequestLine.MatchParts | main.go:121 | where the method, the site name and the tail of a match sit in the line |
| RequestLine.SiteNameSound | main.go:259-265 | whatever the scanner returns is a match of the pattern with that group 1 |
| RequestLine.SiteNameComplete | main.go:259-265 | every match of the pattern is found, with its group 1 |
| RequestLine.SiteNameIff | main.go:121 | the scanner returns `name` if and only if the line matches the pattern with `name` as group 1, so group 1 is unique |
| RequestLine.MethodEnd | main.go:121 | in a match, the method is the leading run of word characters, followed by " /" |
| RequestLine.MatchShape | simple/main.go:35 | a matching line starts with a non-empty run of word characters, one space and '/'; its site name holds neither '/' nor ' ' |
| RequestLine.RootIsEmptyName | simple/main.go:35 | a request for "/" yields the empty site name |
| Rewrite.SegmentCut | main.go:280 | the routing segment ends just past the site name, or past the slash that follows it |
| Rewrite.StripSegment | main.go:279-284 | the positional strip shortens the request unless the site name is empty |
| Rewrite.StripSegmentSpec | main.go:279-284 | "M /s/rest HTTP…" becomes "M /rest HTTP…" and "M /s HTTP…" becomes "M / HTTP…"; nothing else changes |
| Rewrite.StripTail | main.go:280-284 | the strip keeps what follows the site name, less the slash that begins a path |
| Rewrite.StripBareIsRoot | main.go:283 | stripping a bare site name leaves a request for the root |
| Rewrite.StripPathShifts | main.go:281 | stripping the site name from a two-segment path leaves a request routed by the second segment |
| Rewrite.FirstSlash | main.go:280 | in a matching request, the first '/' is the one after the method |
| Rewrite.StripSegmentAsWritten | main.go:280-284 | the strip as written never lengthens the request unless the site name is empty |
| Rewrite.StripPattern | main.go:280-283 | the deleted text is the site name, followed by '/' when the character after the name is a slash |
| Rewrite.StripAsWrittenAt | main.go:280-284 | the as-written strip deletes the first "name/" when a slash follows the site name, and the first "name" otherwise |
| Rewrite.SlashPatternFirstAt | main.go:281 | when a path follows, the first "name/" is the one in the request target |
| Rewrite.NamePatternFirstAt | main.go:283 | when the site name does not occur in the method, its first occurrence is the one in the request target |
| Rewrite.StripAgrees | main.go:279-284 | the first-occurrence strip equals the positional strip when a path follows, or when the site name does not occur in the method |
| Rewrite.StripAt | main.go:279-284 | the positional strip cuts out the site name, and the slash after it when a path follows |
| Rewrite.StripAsWrittenBareAt | main.go:283 | without a path, and with the site name absent from the method, the as-written strip deletes the site name where it stands |
| Rewrite.StripAsWrittenSlash | main.go:281 | with a path, the as-written strip deletes "name/" where it stands |
| Rewrite.NameFirstInMethod | main.go:283 | an occurrence of the site name inside the method is its first occurrence in the request |
| Rewrite.StripAsWrittenBare | main.go:282-283 | without a path, the as-written strip replaces the first occurrence of the bare site name |
| Rewrite.StripAsWrittenHitsMethod | main.go:283 | when the site name occurs in the method and no path follows, the as-written strip cuts the method and leaves the target alone |
| Rewrite.ReplaceInMethod | main.go:283 | deleting the first occurrence of a name found in the method changes only the method |
| Rewrite.StripAsWrittenDiffers | main.go:283 | in that case the as-written strip and the positional strip differ |
| Rewrite.StripAsWrittenSample | main.go:283 | "GET /E HTTP…" for the site "E" becomes "GT /E HTTP…" where "GET / HTTP…" is meant |
| Rewrite.ForwardedField | main.go:289 | the field line is CRLF, "Forwarded: ", then a `for=` pair naming the peer (section 4 of RFC 7239) |
| Rewrite.ForwardedFieldAsWritten | main.go:289 | the field line as written is CRLF, "Forwarded: ", "for", then the peer directly |
| Rewrite.InsertField | main.go:286-291 | the field goes right before the first blank line and every other octet is kept in place; a request without a blank line is unchanged |
| Rewrite.InsertFieldShape | main.go:286-291 | replacing the first blank line with field + blank line is an insertion before it |
| Rewrite.InsertFieldInverse | main.go:286-291 | taking the inserted field out again gives back the request |
| Rewrite.ForwardedAsWrittenLacksPair | main.go:289 | the field as written has no '=' after `for`; the documented one does |
| Rewrite.RewriteRequest | server/server.go:240-252 | when the stripped request has a blank line, the rewrite adds exactly the field's length to it |
| Rewrite.RewriteRequestAsWritten | main.go:279-291 | when the stripped request has no blank line, the as-written rewrite is the strip alone |
| Dispatcher.Classify | main.go:240-255 | fewer than two octets is "too short"; the tunnel magic selects the tunnel handshake; the command magic is the only other frame |
| Dispatcher.ClassifyIntended | main.go:551-565 | with the documented magics, each frame kind is recognised exactly by its own two octets, and everything else of two octets or more is HTTP |
| Dispatcher.SixteenBitMagic | server/server.go:209-216 | comparing the 16-bit value with 31623 is the same test as comparing the octets with the documented tunnel magic |
| Dispatcher.HandshakeBody | main.go:248 | with `reqBuf[2:]` the handshake body is the 2046 octets after the magic, beginning with what was read; otherwise it is exactly the bytes read |
| Dispatcher.RouteHttp | main.go:257-298 | an unmatched line gets 400 and nothing else does; every reply is 400 or 404; a dial or tunnel hand-off needs a matched, unreserved, registered site name |
| Dispatcher.HandleConn | main.go:240-256 | a failed read closes; the tunnel and command handshakes start exactly when their magic is read |
| Dispatcher.AfterDial | main.go:306-320 | the client gets exactly the 500 response when the dial fails or when writing the request to the backend fails; only when both succeed are the connections piped, with nothing written |
| Dispatcher.TooShortIsBadRequest | main.go:240-243 | fewer than two octets get exactly the 400 response |
| Dispatcher.UnmatchedIsBadRequest | main.go:257-264 | a request line that does not match gets the 400 response |
| Dispatcher.ReservedNeedsNoLookup | main.go:266-271 | the site names "" and "favicon.ico" get 404 whatever the registry holds |
| Dispatcher.UnregisteredIsNotFound | main.go:272-278 | an unregistered site name gets 404 and nothing is dialled |
| Dispatcher.RegisteredIsForwarded | server/server.go:253-266 | a tunnel backend goes to the tunnel path without a dial; any other backend is dialled at its address with its TLS setting |
| Dispatcher.IntendedForwarding | main.go:279-305 | as documented, a routed request reaches its backend as "M /rest HTTP…" with a `for=` field before the blank line |
| Dispatcher.DocumentedTunnelMagicRejected | main.go:551-553 | with main.go's magic, a tunnel sending 31623 gets the 400 response; with the documented magic it gets the handshake |
| Dispatcher.PaddedBodyMismatch | main.go:248 | with `reqBuf[2:]` an honest tunnel always gets "content length mismatch"; with the bytes read it gets its own body |
| ConfigReload.ByName | main.go:526-528 | the refilled table holds every listed name |
| ConfigReload.ByNameKeys | main.go:520-528 | the refilled table holds exactly the listed names |
| ConfigReload.ByNameLast | main.go:526-528 | each name is mapped to the last listed entry carrying it |
| ConfigReload.ServersDiffer | main.go:504-519 | the length check plus the element-wise comparison reports an update exactly when the lists differ |
| ConfigReload.Apply | main.go:497-529 | the shutdown flag wins and keeps the old configuration; then the forced shutdown; an unchanged list keeps the routes; a changed list replaces them with the new list keyed by name |
| ConfigReload.ReplaceForgetsOld | server/server.go:411-419 | after a replacement, a backend is routed exactly when the new list names it, with the last entry of that name |
| ConfigReload.ApplyTwice | server/server.go:395-410 | applying the same configuration again keeps the routes the first application produced |
| ServerDraft.DraftBody | server/server.go:320-331 | the draft's layout: the two lengths read as one value are passwordLen * 256 + nameLen, followed by the name and then the password |
| ServerDraft.CreateTunnelWith | server/server.go:311-337 | the four-octet reply is sent exactly for a short body or a failed length check; a pass carries the expected password and names the tunnel by the name bytes; a wrong password is dropped silently |
| ServerDraft.DraftTooShort | server/server.go:312-318 | a body shorter than two octets gets [0x7B, 0x87, 0, 0] |
| ServerDraft.DraftCorrectedAccepts | server/server.go:328-336 | with the corrected length check, an honest tunnel passes exactly when its password is right |
| ServerDraft.DraftCorrectedPassedIsBody | server/server.go:320-336 | every body the corrected check passes is an honest body carrying the expected password |
| ServerDraft.DraftRejectsHonestTunnel | server/server.go:320-327 | the packed comparison turns away every honest tunnel that sends a password |
| ServerDraft.DraftAgreesWithoutPassword | server/server.go:320-327 | the two checks agree on honest bodies without a password |
| ServerDraft.DraftSample | server/server.go:322 | the tunnel "a" with password "p" is rejected by the draft and passes the corrected check |
| SyncMaps.Load | sync_map.go:15-21 | `ok` holds exactly when the key is present, with its value |
| SyncMaps.Store | sync_map.go:47-49 | the key then loads the stored value; every other key loads as before |
| SyncMaps.Delete | sync_map.go:11-13 | the key then loads nothing; every other key loads as before |
| SyncMaps.LoadOrStore | sync_map.go:31-39 | a present key returns its value with `loaded` set and leaves the map unchanged; an absent key is stored and returns the given value |
| SyncMaps.LoadAndDelete | sync_map.go:23-29 | it returns what `Load` would have returned, and leaves what `Delete` leaves |
| SyncMaps.DeleteIdempotent | sync_map.go:11-13 | deleting twice is deleting once |
| SyncMaps.LoadOrStoreTwice | sync_map.go:31-39 | a second `LoadOrStore` of a key finds what the first left and changes nothing |
| SyncMaps.StoreOverwrites | sync_map.go:47-49 | of two stores to one key, the later wins |
| SyncMaps.DeleteUndoesStore | sync_map.go:11-13 | deleting a key just added by `LoadOrStore` restores the map |
| SyncMaps.LoadAndDeleteThenLoad | sync_map.go:23-29 | afterwards nothing loads, and a value was reported exactly when the key was present |
| Registry.ScanForClash | p2/proxy2.go:316-330 | the de-duplication pass reports a clash only when another path carries the same non-empty name |
| Registry.ScanForClashComplete | p2/proxy2.go:316-330 | whatever order the pass visits the keys in, it finds a clash exactly when there is one |
| Registry.ScanFinds | p2/proxy2.go:317-328 | a pass over a sequence holding a clashing key finds a clash |
| Registry.Register | p2/proxy2.go:312-335 | "path already exists" exactly when the key is present, with the table unchanged; "success" stores the entry; "name already exists" stores it, then deletes the key `path` |
| Registry.RegisterByPath | server/socket_server/srvr_listener.go:183-209 | keyed by path, a registration adds exactly the new entry or leaves the table unchanged |
| Registry.RegisterNameRule | p2/proxy2.go:316-335 | a new path collides exactly when another path carries its non-empty name; an empty name never collides |
| Registry.RegisterKeepsInvariants | server/srvr_listener.go:119-142 | path keying keeps every entry under its own path and keeps non-empty names unique |
| Registry.AddrKeyedRollbackMisses | p2/proxy2.go:36-39 | keyed by address, the rollback deletes a key the entry is not under, so the clashing entry stays |
| Registry.AddrKeyedSample | server/srvr_listener.go:30-33 | "/b" named like "/a" is refused yet stays in the address-keyed table; the path-keyed table is unchanged |
| Registry.DeleteFirstAddr | p2/proxy2.go:289-296 | deletion by address only removes entries, and changes no value |
| Registry.DeleteFirstAddrSpec | p2/proxy2.go:289-296 | deletion by address removes exactly the first match of the pass, or nothing when no entry has that address |
| Registry.Remove | p2/proxy2.go:287-300 | a DELETE is refused exactly when neither path nor address is given; a path deletes that key |
| Registry.RemoveAtMostOne | server/srvr_listener.go:93-106 | a DELETE removes at most one entry and changes no value |
| Registry.Step | p2/proxy2.go:356-368 | a refusal after a refusal evicts; a first refusal marks the entry; anything else clears the mark; no other field changes |
| Registry.TwoStrikes | server/srvr_listener.go:165-185 | an unmarked entry is evicted after two probes exactly when both were refused |
| Registry.Sweep | p2/proxy2.go:354-370 | one pinger pass keeps exactly the entries the two-strike rule keeps, each updated by that rule |
| Registry.Label | p2/proxy2.go:244-247 | a named entry is labelled by its name and an unnamed one by its key |
| Registry.LinkOf | p2/proxy2.go:248-250 | a key gets a link exactly when its entry is a website or all entries are asked for |
| Registry.Links | server/proxy.go:183-194 | the page has at most one link per key visited |
| Registry.LinksSound | server/proxy.go:183-194 | every link names a registered, listed key, with its label |
| Registry.LinksComplete | server/proxy.go:183-194 | every listed key of the pass has a link |
| Registry.LinksSpec | p2/proxy2.go:241-252 | over a full pass, a key is linked exactly when it is registered and is a website or `all` is set, and its link carries its label |
| Registry.LinkHtml | p2/proxy2.go:249 | the href of the HTML link is the key, unchanged |
| Listeners.Values | p2/proxy2.go:276-280 | a GET lists only registered entries, at most one per key visited |
| Listeners.FormEntry | server/srvr_listener.go:115-119 | the entry is a website exactly when the form value is "1"; the other fields come from the form |
| Listeners.HandleForm | p2/proxy2.go:269-339 | an error or a GET leaves the table unchanged; any other method gets "Invalid method"; only a GET lists |
| Listeners.PostNeedsAddrAndPath | p2/proxy2.go:304-307 | a POST without address or path gets 400 and changes nothing |
| Listeners.PostByPath | server/srvr_listener.go:108-143 | keyed by path, a POST either succeeds and adds exactly its entry, or finds the path or the name taken and leaves the table unchanged |
| Listeners.DeleteByPath | p2/proxy2.go:287-288 | a DELETE with a path removes that key alone and replies "success" |
| Listeners.DeleteByAddr | server/srvr_listener.go:95-107 | a DELETE by address alone removes the first matching entry of the pass, or nothing, and replies "success" |
| Listeners.DeleteNeedsPathOrAddr | p2/proxy2.go:297-300 | a DELETE with neither path nor address gets 400 |
| Listeners.SocketPost | server/socket_server/srvr_listener.go:165-209 | a POST writes something or panics; a panic changes nothing; a change needs a kept URL and an unreserved path; a reserved path ends in "Invalid path" |
| Listeners.SocketDelete | server/socket_server/srvr_listener.go:142-164 | a DELETE writes one response; it is the invalid-address error exactly when there is neither a usable path nor a host |
| Listeners.SocketHandle | server/socket_server/srvr_listener.go:118-126 | an unparsable `addr` gets the invalid-address error and changes nothing; GET and other methods change nothing |
| Listeners.SocketPostCorrected | server/socket_server/srvr_listener.go:165-186 | with the corrections, a POST writes one response and registers a complete, unreserved URL by its path |
| Listeners.SocketMissingHostContinues | server/socket_server/srvr_listener.go:167-173 | as written, a POST without a host goes on after the 400: two errors for "/admin", and a host-less entry once the URL is kept |
| Listeners.SocketNilAddrPanics | server/socket_server/srvr_listener.go:175-183 | as written, every POST that passes the reserved-path check panics on the missing URL and registers nothing |
| Listeners.SocketDeleteByPath | server/socket_server/srvr_listener.go:144-146 | a DELETE with a usable path removes that key alone and replies "sucess" |
| PathDispatch.ExtractPath | server/proxy.go:42 | `^(/\w*)` matches exactly when the path starts with '/', and gives the '/' plus the longest run of word characters after it |
| PathDispatch.ExtractPathUnique | server/proxy.go:59-65 | that prefix is the only one of its shape |
| PathDispatch.FaviconUnreachable | server/proxy.go:69-74 | the extracted path is never "/favicon.ico" |
| PathDispatch.Dispatch | p2/proxy2.go:119-137 | no match gives 400; "/" gives the page, with `all` exactly when the query value is "1"; a forward goes to the registered entry of the extracted path |
| PathDispatch.RootNeedsNoLookup | server/proxy.go:66-68 | "/" is served without looking at the registry |
| PathDispatch.DispatchOutcomes | server/proxy.go:66-77 | an unregistered path gets 404, a registered one is forwarded, and the favicon branch is never taken |
| PathDispatch.FormatInt | server/socket_server/proxy.go:247-249 | `%d` prints a non-negative code as its decimal digits, and a negative one with a leading '-' |
| PathDispatch.StatusText | server/socket_server/proxy.go:249 | 404 has the reason "Not Found"; a code outside the table has the empty reason |
| PathDispatch.ResponseFromCode | server/socket_server/proxy.go:245-250 | a status line begins with "HTTP/1.1 " and ends with the blank line |
| PathDispatch.ResponseFromCodeReadable | server/socket_server/proxy.go:245-250 | the code reads back from the digits after the prefix, and the reason is the message, or the standard reason when the message is empty |
| PathDispatch.StatusResponse | server/proxy.go:61 | the socket draft's status lines are `createResponseFromCode` with an empty message |
| PathDispatch.LineOnlyLacksBlankLine | server/proxy.go:76 | the fixed-text drafts' status lines stop one CRLF short of a complete response |
| PathDispatch.BadRequestLine | server/proxy.go:61 | the fixed 400 text is the status line of code 400 |
| PathDispatch.NotFoundLine | server/proxy.go:76 | the fixed 404 text is the status line of code 404 |
| PathDispatch.InternalErrorLine | server/proxy.go:55 | the fixed 500 text is the status line of code 500 |
| PathDispatch.ByProtocol | server/socket_server/proxy.go:67-74 | major version 1 is routed, 2 is ignored, and any other gets 400 |
| PathDispatch.FixedPageLength | server/socket_server/proxy.go:213 | the declared Content-Length 17 is the length of the body after the blank line |
| PathDispatch.ServeFavicon | server/socket_server/proxy.go:239-243 | the favicon answer is the complete 404 response |
| SlugProxy.CharFrom | proxy.go:88-95 | the first occurrence of a character at or after a position, or the end |
| SlugProxy.CharFromIs | proxy.go:88-95 | that index is the only one with those properties |
| SlugProxy.SlugScan | proxy.go:87-95 | the scan stops at the second '/', or at the first '/' when the path does not start with one, or at the end |
| SlugProxy.Enclose | proxy.go:97-102 | the route begins and ends with '/', keeps the given text, and grows by at most two characters |
| SlugProxy.EncloseIdempotent | proxy.go:97-102 | normalising twice is normalising once |
| SlugProxy.EncloseKeepsEnclosed | proxy.go:97-102 | a route that already has both slashes is unchanged |
| SlugProxy.RouteOf | proxy.go:84-102 | every route looked up begins and ends with '/' |
| SlugProxy.RouteSample | proxy.go:85 | "/images/image" and "images/image" are both looked up as "/images/" |
| SlugProxy.HandleSlug | proxy.go:73-109 | a dial goes to a registered host; the deferred `Close` on the nil connection panics for every request; with both slips corrected, a non-empty path never panics |
| SlugProxy.SlugRouting | proxy.go:103-109 | corrected, an unregistered route is dropped without a dial and a registered one is dialled at its host |
| SlugProxy.NilClosePanics | proxy.go:73-74 | as written every request that is read panics at the deferred `Close`; corrected, the same request does not |
| SlugProxy.SlugAsWrittenPanics | proxy.go:96 | with the deferred `Close` corrected, cutting the path at the number of bytes read still panics for every request line that holds a method and the path |
| SlugProxy.PingSweep | proxy.go:195-205 | one pass keeps exactly the routes whose probe was not refused, with their hosts |
| SlugProxy.SplitTab | proxy.go:180-183 | without a tab there are no fields 0 and 1; otherwise field 0 is the text before the first tab and field 1 runs to the next tab |
| SlugProxy.SplitTabRoundTrip | proxy.go:180-183 | "host\troute" splits back into the host and the route |
| Simple.HandleLine | simple/main.go:138-153 | a failed read closes without a reply; every reply is the 400 response; a kept connection's site name holds neither '/' nor ' ' |
| Simple.HandleLineIff | simple/main.go:147-153 | a line is kept for `name` exactly when it matches with `name` as group 1, and gets 400 exactly when it does not match at all |
| Simple.RootRequest | simple/main.go:35 | a request for "/" is kept with the empty site name |
| PingPong.Add | server/main.go:28-32 | the route maps to "" and no other route changes |
| PingPong.Delete | server/main.go:35-39 | the route is gone and no other route changes |
| PingPong.DeleteUndoesAdd | server/main.go:28-39 | removing a route just added gives back the map from before |
| PingPong.ParseInt32 | server/main.go:114 | a parse result fits 32 bits; plain digits in range parse as their value; a non-digit after the sign position fails |
| PingPong.Header | server/main.go:42 | a header is four ASCII digits |
| PingPong.HeaderRoundTrip | server/main.go:114 | a header parses back as the length it was written for |
| PingPong.Taken | server/main.go:120 | a read takes a prefix of what was sent, at most the room asked for |
| PingPong.Fill | server/main.go:106 | a read overwrites the start of the buffer with what it takes and leaves the rest of the buffer |
| PingPong.Zeros | server/main.go:105 | an array starts as zero bytes |
| PingPong.Connect | server/main.go:104-127 | a failed header read registers nothing; only the unchecked slice crashes; a registered route fits the 64-byte buffer |
| PingPong.ConnectRoundTrip | server/main.go:104-126 | a route sent under its own header is registered as sent |
| PingPong.ShortHeaderRefused | server/main.go:114-119 | a header read shorter than four bytes does not parse and gets "ERROR" |
| PingPong.OversizedLengthCrashes | server/main.go:120 | the well-formed header "0100" crashes the router as written, and is refused with the check |
| PingPong.GetMsg | server/main.go:157-192 | the reader sends at most one message per read; every message before the last is "pong"; it panics only after a run of "pong"s |
| PingPong.FrameRead | server/main.go:171-190 | a message sent under its own header is delivered as sent; a message other than "pong" is the last one |
| PingPong.OnEvent | server/main.go:133-153 | a firing the loop receives continues only while pinging and clears it; a message continues only for "pong" and sets pinging |
| PingPong.Run | server/main.go:129-154 | at most one "ping" is written per event; with the timer armed again after each ping, the timer is always armed |
| PingPong.AsWrittenTimer | server/main.go:131-152 | as written, the timer is armed exactly while the loop waits to ping, so a firing always takes the ping branch; the session stays open exactly while every message is "pong" |
| PingPong.Ticks | server/main.go:131 | minutes passing with no message |
| PingPong.TicksIdle | server/main.go:131 | a disarmed one-shot timer never fires, so further minutes change nothing |
| PingPong.TicksOnly | server/main.go:131-138 | as written, a backend never heard from is pinged once and then left open with the timer disarmed |
| PingPong.SilentBackendKept | server/main.go:134-141 | as written, once the loop has pinged and no message comes, the session stays open, the timer stays disarmed and no second ping is written, however many minutes pass |
| PingPong.RunFollowsProtocol | server/main.go:133-152 | with the timer armed again after each ping, the session stays open exactly while every message is "pong" and the timer never fires twice without a message in between |
| PingPong.TwoTicksDisconnect | server/main.go:139-141 | with the timer armed again after each ping, two firings without a message in between end any session |
| PingPong.PongsKeepAlive | server/main.go:143-152 | a backend answering every ping stays connected, with one ping per round, with either timer |
| PingPong.Delivered | server/main.go:129-131 | without the reader, only the minutes passing reach the loop; with it, every event does |
| PingPong.Pings | server/main.go:137 | each write of the loop is "ping" |
| PingPong.Serve | server/main.go:100-155 | only the unchecked slice crashes; a session that has ended leaves no new route in the map |
| PingPong.ServeRemovesRoute | server/main.go:125-128 | a registered route is in the map while its session is open, and gone once it ends, however it ends; no other route is touched |
| PingPong.SharedRouteLost | server/main.go:125-128 | when two backends share a route, the first to disconnect removes it |
| PingPong.UnstartedReaderHangs | server/main.go:129-131 | as written, whatever the backend sends and however many minutes pass, the session stays open, the route stays in the map and at most one ping is written |
| PingPong.ClosedBackendRemoved | server/main.go:143-146 | with the reader started, a backend that closes its end ends the session and its route leaves the map |
| Connector.StripSlash | connector.py:36 | exactly one trailing '/' is removed, when there is one |
| Connector.Normalise | connector.py:29-38 | an absent or empty host or route exits with status 1; otherwise the route is enclosed in slashes and the host loses one trailing '/' |
| Connector.MissingHostFirst | connector.py:29-31 | a missing host is reported first, whatever the route |
| Connector.StripOnce | connector.py:36 | "a//" becomes "a/"; a host of one slash becomes empty without being reported |
| Connector.NormaliseIdempotent | connector.py:37-38 | normalising a normalised route changes nothing |
| Connector.RouteFound | connector.py:37-38 | a one-segment route is the route proxy.go looks up for any path under it |
| Echo.Reversed | tests/servers/echo.go:30-36 | the reversal keeps the length |
| Echo.ReversedIndex | tests/servers/echo.go:32-34 | byte i of the result is byte l-1-i of the input |
| Echo.Reverse | tests/servers/echo.go:30-36 | the in-place swap loop computes the reversal |
| Echo.ReversedTwice | tests/servers/echo.go:30-36 | reversing twice gives back the input |
| Echo.MiddleStays | tests/servers/echo.go:32 | for odd lengths, the middle byte stays where it is |

## Left out

- Socket I/O, read deadlines and the duplex forwarding loops (`pipeConns` and the websocket polling) are not modelled. They are concurrency and timing; a read's result is an input, and writes are the outcome values.
- `serveTunnel` and the tunnel rendezvous in main.go are not modelled. They are channel-based and refer to names the file never defines. The model stops at the `AwaitTunnel` action.
- TLS, listener creation, flags, reading the configuration file, timers and the drain loop at shutdown are process-level I/O. `Effect` and `Decision` record only what the code decides.
- JSON decoding, `url.Parse`, `http.ReadRequest`, `net.SplitHostPort` and the form parser are library calls. Their results are parameters.
- The regexp engine is not modelled. Each pattern is a hand-written scanner with the pattern's language stated beside it.
- PathDispatch.StatusText: covers only the codes the drafts use (200, 400, 404, 405, 500, 504). Every other code gets "", which is what Go returns only for unknown codes.
- Probe error texts ("connection refused", "refused") are not modelled. A probe's outcome is the `Probe` enumeration.
- The page template, `pageChecker` and the HTML file polling are file I/O. Only the links inserted into the page are modelled.
- The JSON listing of a GET is modelled as the sequence of entries, not its encoding.
- server/server.go's `createTunnel` writes `resp` on a length mismatch, but `resp` is only defined in the short-body branch. The model sends the four-octet reply in both places.
- The draft stops before registering a tunnel (line 337), so the model stops at `Passed`.
- The `println` of the host and route in `listenServer` (proxy.go) is output only.
- SlugProxy.PingSweep: models the one sweep that ever runs. proxy.go:207-210 waits on the channel of a `time.AfterFunc` timer, which is nil, so that loop blocks for ever and the timer is never reset.
- SlugProxy.SplitTab: ignores that the registration buffer is 64 bytes. A longer message is cut before it is split.
- The `sync.Map` operations are modelled as atomic steps, with no interleaving.
- simple/main.go pipes the client to a nil connection, because no backend is ever chosen. The model stops at the site name.
- connector.py: lines 43-59 are not modelled. The script exits at line 41, so they never run; line 46 also refers to an undefined name.
- The echo server's receive loop (tests/servers/echo.go:25-27) is I/O. Only `reverse` is modelled.
- server/main.go: `handleConn` (83-85) only closes the connection. `listen`, `listenServers` and `init` create listeners. The file has no `main`.
- The one-minute timer of server/main.go is one-shot (`time.After`). A minute passing is the `Tick` event, and it reaches the loop only while the timer is armed.
- Byte values: decoded command fields, configuration names, form values and the peer address are strings of one character per octet. A name outside ASCII therefore does not compare as Go's UTF-8 string would. Handshake.UnknownAction's bound of 240 counts characters where Go counts octets.
- Handshake.CreateTunnelWith: adds the two length octets as unbounded integers. main.go:365 compares an `int` with the sum of two `byte`s, which does not compile as written; a `byte` sum would wrap at 256, and the model takes the sum after conversion to `int`.
- Handshake.ServeCommandWith: adds the message length and the password length as unbounded integers. main.go:400 adds a `uint16` and a `byte`, which does not compile as written; the model takes the sum after conversion to `int`.
- PingPong.Connect: treats a read as delivering at most the room asked for in one call. A short read of the body is the prefix it delivered.
- Command handshake: the success frame main.go means to send after a command is modelled from the layout comment, because the write at line 446 does not compile.

## Findings

| source | as written | input that shows it | evidently intended | confidence | as-written member | corrected member |
|---|---|---|---|---|---|---|
| main.go:551-553 | `tunnelHeader` returns [0x9B, 0x87], which is 39815 | a tunnel sending the documented magic 31623 ([0x7B, 0x87]) gets the 400 response | [0x7B, 0x87], the value 31623 of the layout comment (main.go:5) and of server/server.go:49 | high; not executed | Dispatcher.DocumentedTunnelMagicRejected | Dispatcher.ClassifyIntended |
| main.go:370-375 | the password is compared with the first `nameLen` octets, and the name is taken from the rest | name "a", password "p": body [1, 1, 'a', 'p'] is told its password is wrong | the name first, then the password, as the layout at main.go:8-9 lists them | high; not executed | Handshake.SwappedSlicesRejectHonestTunnel | Handshake.TunnelAccepted |
| main.go:398 | the password length is read from `req[3]`, the zero pad octet | any command that carries a password gets "content length mismatch" | `req[2]`, the password length octet of main.go:28-29 | high; not executed | Handshake.PadOctetRejectsPasswords | Handshake.CommandAuthenticated |
| main.go:248 | the handshake gets `reqBuf[2:]`, the rest of the 2048-octet buffer | every honest tunnel: the unread zero octets fail the length check | `reqBuf[2:n]`, the bytes read | high; not executed | Dispatcher.PaddedBodyMismatch | Handshake.TunnelAccepted |
| main.go:289 | the field is "Forwarded: for" followed directly by the address | peer "1.2.3.4:5" yields "Forwarded: for1.2.3.4:5" | a `for=` pair (section 4 of RFC 7239) | high; not executed | Rewrite.ForwardedAsWrittenLacksPair | Dispatcher.IntendedForwarding |
| main.go:280-284 | the site name is removed by `bytes.Replace` at its first occurrence | "GET /E HTTP/1.1" for the site "E" becomes "GT /E HTTP/1.1" | remove the segment where it stands: "GET / HTTP/1.1" | high; not executed | Rewrite.StripAsWrittenSample | Rewrite.StripSegmentSpec |
| p2/proxy2.go:36-39 | entries are stored under `conn.addr`, but the rollback deletes `server.Path` | "/a" named "x" at "h1", then "/b" named "x" at "h2": "name already exists", yet "/b" stays | key by path, as the comments and every lookup do | high; not executed | Registry.AddrKeyedSample | Registry.RegisterKeepsInvariants |
| server/socket_server/srvr_listener.go:167-169 | a missing host or path writes 400 and goes on | POST with addr "/admin" writes two errors | return after the 400 | high; not executed | Listeners.SocketMissingHostContinues | Listeners.SocketPostCorrected |
| server/socket_server/srvr_listener.go:175-183 | the entry's URL field is left nil, and `LoadOrStore` reads `addr.Path` from it | any POST with an unreserved path panics | keep the parsed URL in the entry | high; not executed | Listeners.SocketNilAddrPanics | Listeners.SocketPostCorrected |
| proxy.go:73-74 | `defer serverConn.Close()` runs while `serverConn` is a nil interface | any request that is read: evaluating a method of a nil interface panics when the defer statement runs, before the request is parsed | defer the `Close` after a successful dial | high; not executed | SlugProxy.NilClosePanics | SlugProxy.SlugRouting |
| proxy.go:96 | the route is `u.Path[:l]`, where `l` is the number of bytes read | once line 74 is corrected, "GET /images/x HTTP/1.1": `l` exceeds the path length and the slice panics | `u.Path[:i]`, the end of the first slug | high; not executed | SlugProxy.SlugAsWrittenPanics | SlugProxy.SlugRouting |
| server/server.go:322 | the rest is compared with the packed 16-bit value passwordLen * 256 + nameLen | tunnel "a" with password "p": body [1, 1, 'a', 'p'] is rejected | compare with nameLen + passwordLen | high; not executed | ServerDraft.DraftSample | ServerDraft.DraftCorrectedAccepts |
| server/main.go:129-131 | `pingPong` makes the message channel but never starts `getMsg` | any backend: it is pinged once, then the loop waits for ever, and its route stays in the map even after it goes away | `go getMsg(conn, msgChan)` | high; not executed | PingPong.UnstartedReaderHangs | PingPong.ClosedBackendRemoved |
| server/main.go:134-141 | the one-shot timer is armed again only after a "pong" (line 152), so the "Failed to pong" branch is never taken | a backend that stops answering after a ping: the session stays open and its route stays registered | arm the timer again after writing "ping" | high; not executed | PingPong.SilentBackendKept | PingPong.TwoTicksDisconnect |
| server/main.go:120 | the parsed length slices the 64-byte buffer unchecked | the header "0100" panics and stops the router | refuse a length outside 0..64 like an unparsable one | high; not executed | PingPong.OversizedLengthCrashes | PingPong.Connect |
