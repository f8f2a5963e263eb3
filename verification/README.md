# A verified model of privacy-engine's core

privacy-engine is a local TLS-terminating proxy. It relays HTTP/1.1 between a browser and a server, strips
tracking cookies and headers, rewrites HTML, blocks names from filter lists, pins certificates on first use and
keeps per-host receipts. This project models that core in Dafny and proves what it keeps, what it changes and when
its result depends on accidents such as how the network cuts a stream.

A byte is modelled as the `char` with that code; nothing looks at codes above 255, so a statement about all texts
covers all byte strings. The TLS parser works on numbers below 256. Integers are unbounded; the places where 64-bit
width matters (chunk sizes, Content-Length, saturating counters) state the bound.

| file | contents |
|---|---|
| `Text.dfy`, `Utf8.dfy` | searching, splitting and joining, trimming, numbers; well-formed UTF-8 |
| `Chunked.dfy` | both chunked decoders, the encoder, and the grammar they accept |
| `Headers.dfy`, `Requests.dfy` | response header blocks; rewrites of the first request |
| `Domains.dfy`, `Policy.dfy` | parent-domain walks; planning and the response header policy |
| `Relay.dfy`, `RelayLoop.dfy` | the relay as a four-phase machine, and the loop with its flags that refines it |
| `RelayRuns.dfy` | what holds of every run: accounts, conservation, framing, transparency |
| `CookieStripping.dfy` | runs that enforce the cookie filter: the first head, and everything behind it |
| `RebuiltHeads.dfy`, `ReportOnlyRuns.dfy` | exactly when a run changes nothing, and what report-only mode changes |
| `Segmentation.dfy`, `RequestCuts.dfy` | when the client's, and the server's, stream is independent of the cut into reads |
| `OverrunExample.dfy`, `GapExample.dfy`, `SecondResponse.dfy`, `TransferEncodingExample.dfy` | concrete connections for the findings below |
| `FilterListParser.dfy`, `FilterListSyntax.dfy`, `FilterList.dfy` | the list parser, the lines it accepts, aggregation, and what a list means for a host |
| `CertPin.dfy`, `Receipts.dfy` | two protocols under every interleaving of their critical sections |
| `Sni.dfy` | the ClientHello parser and the messages it accepts |

## Main results

**Every run of the relay has an account** (`RelayRuns.RunExplained`). For every schedule of reads in both
directions, with the policy free to change between reads, what the client has been sent is one of: the upstream bytes
as they are; those bytes behind a header block processed by one policy that was in force; or that with one stretch of
body replaced by a rewritten body. Conservation, framing and transparency are read off the account.

**The first response head is stripped, and only the first** (`CookieStripping.NoCookieSent`,
`CookieStripping.CookieReachesClientIff`). While the filter is enforced on a host, every run sends a first response head
without Set-Cookie lines, except a run that never had that head whole within the 64 KiB limit, which passes the stream
on raw (`CookieStripping.PolicyRunsIff`, an if-and-only-if). Behind that head a Set-Cookie line reaches the client
exactly when there is one in what was read behind it, or in the body put in.

**When a run changes nothing** (`ReportOnlyRuns.ResponsesConservedIff`, `ReportOnlyRuns.RequestsConservedIff`): exact
conditions for both directions of every run in every mode, on the blocks and requests that were read.

**Independence from the cut** (`Segmentation.IndependentIff`). For one upstream stream there are at most three
possible client streams. The stream is independent of how reads cut it exactly when it is *stable* or its outcomes
coincide, and, if the response head ends within one read of the 64 KiB limit and more data follows, the outcome is the
raw stream. A stream is not stable in exactly these cases: a body that overruns its Content-Length, or that reaches
the size limit before EOF or before its chunked message ends, and is small enough to arrive with the end of the head,
where EOF finds it unexamined; and a chunked message that one read can carry over the size limit before it is
recognised.

For requests (`RequestCuts.RequestsIndependentIff`, over whole runs `RequestCuts.RequestSchedulesAgreeIff`): what the server
is sent is independent of the cut exactly when no possible first read is refused or rewritten.

**Decoders and parsers accept exactly a grammar** (`Chunked.DecodeIffEncoded`, `Chunked.DownloadIff`,
`Sni.SniIffEncoded`, `FilterListSyntax.StatesIff`, `Utf8.ValidIffEncoded`, `Text.ParseUsizeIff`): both directions, each
against a grammar written without the parser's own functions.

**What is forwarded and what is rewritten** (`Requests.ForwardedHead`, `Relay.RewriteMeaning`,
`Segmentation.DeliveredRewritten`): every enabled rewrite of a request is present in what reaches the server, and a
body that can be rewritten is.

**End-to-end meaning of filter lists** (`FilterList.ListMeaning`, `FilterList.TrackerMeaning`): from list text through
parsing, aggregation and the suffix walk to the decision, as an if-and-only-if over lines and suffixes.

## Where the code does not do what one would expect

- Enforcing the Set-Cookie filter adds one CRLF between the headers and the body, whether or not a line was dropped:
  the section that is split into lines ends with LF, which yields a trailing empty line
  (src/policy.rs:1289-1322). `Policy.CompleteIffNotEnforced` and `Policy.OutputCompleteIff` give the exact condition,
  `Policy.EnforcedExample` the shortest case. Rewriting a body and dropping a cache header absorb the extra line.
- `normalize_host` is not idempotent when white space precedes trailing dots; `Domains.NormalizeIdempotentIff` is exact.
  For the same reason a domain taken from a filter list may end in a tab (`FilterListParser.NormalDomainFixedIff`).
- Only the first response head of a connection is processed (src/mitm.rs:530, 810-812). A second response on the same
  connection, or the final response behind an informational one, is delivered with its Set-Cookie lines under Enforce:
  `CookieStripping.LaterBytesUnchanged` and `CookieStripping.CookieReachesClientIff` for every run,
  `SecondResponse.SecondResponseKeepsCookies` for a concrete stream.
- Only the first read from the client is checked (src/mitm.rs:550-632), whatever part of the request it holds. Every
  request has a cut under which it is neither refused nor rewritten (`RequestCuts.SomeCutPasses`);
  `RequestCuts.UpgradeDependsOnCut` is a WebSocket upgrade that is refused under one cut and forwarded under another.
- Report-only mode is not transparent. Responses of tracker hosts lose their cache headers
  (`ReportOnlyRuns.ReportOnlyStripsCache`), WebSocket upgrades to them are refused if the first read holds the upgrade
  line, and first reads to any host are rewritten where the referer and query settings find something in them
  (`ReportOnlyRuns.ReportOnlyStripsQuery`). `ReportOnlyRuns.ReportOnlyRun` says of every report-only run exactly when
  each direction is unchanged.
- Near the head limit, whether the cookie filter applies depends on how the response is cut into reads: if the body is
  not rewritten, one cut filters the head and another passes the whole stream on raw (`Segmentation.GapDepends`). Only a
  body rewritten into itself does not show it (`Segmentation.GapIndependentIff`,
  `GapExample.RewrittenGapIndependent`).
- A body that is framed by Content-Length or EOF and rewritten keeps a Transfer-Encoding line beside the new
  Content-Length if no line passed on says "chunked" (`RelayRuns.RewrittenIsFramed`;
  `TransferEncodingExample.CodingLineLeft` for a concrete response).

## Model

| member | source | states |
|---|---|---|
| Chunked.TryDecodeChunkedMessage | src/mitm.rs:1223-1258 | the decoding loop computes the decoder function, for every buffer |
| Chunked.DecodeFrom | src/mitm.rs:1223-1258 | a success consumes at least five bytes, stays inside the buffer, extends what was decoded, and decodes at most the consumed bytes less five |
| Chunked.DecodeStable | src/mitm.rs:1223-1258 | appending bytes, or cutting after the message, does not change a successful decode |
| Chunked.DecodeMinimal | src/mitm.rs:725-745 | no shorter prefix of a decodable buffer decodes |
| Chunked.DecodePrefix | src/mitm.rs:725-745 | of two reads of one stream the earlier decodes exactly when it already holds the whole message, and then to the same result |
| Chunked.DecodeOfEncode | src/mitm.rs:1217-1258 | every encoding of every message, with any size spelling, extensions, trailers and any tail, decodes to its data and its exact length |
| Chunked.DecodeIffEncoded | src/mitm.rs:1217-1258 | the decoder succeeds exactly on buffers that start with an encoding, with that data and length; a size line is any hexadecimal spelling of the size, in either letter case, with leading zeros, a sign and white space, and any extension |
| Chunked.ChunkSizeIff | src/mitm.rs:1229-1231 | the size read off a line is n exactly when the line is white space, an optional plus, n in hexadecimal in any letter case behind any zeros, white space and an optional extension |
| Text.ParseUsizeIff | src/mitm.rs:1231 | number parsing accepts exactly the spellings of numbers up to the largest usize, in both radices used |
| Chunked.HexSizeLine | src/mitm.rs:1229-1231 | every spelling of a size, with an optional extension, is a size line for it |
| Chunked.FieldsAreTrailer | src/mitm.rs:1234-1244 | any list of non-empty trailer fields closed by an empty line is a trailer |
| Chunked.DecodeChunked | src/filter_list.rs:255-295 | the download decoder's loop computes its decoder function |
| Chunked.DownloadIff | src/filter_list.rs:255-295 | the download decoder succeeds exactly on chunks, a last size line and anything behind it, with the chunks' data |
| Utf8.ValidIffEncoded | src/mitm.rs:1229 | text counts as UTF-8 exactly when it is the encoding of a sequence of Unicode scalar values |
| Chunked.DecodersAgree | src/filter_list.rs:255-295 | whatever the relay decodes, the download decoder decodes to the same body |
| Headers.BlockRoundTrip | src/mitm.rs:1290-1292 | joining solid lines and closing the block is undone by splitting, and the block is complete |
| Headers.ReplaceContentLengthSpec | src/mitm.rs:1306-1322 | the result is one complete block, its lines are the surviving lines in order and one Content-Length line, and the length is read back |
| Headers.ReplaceChunkedSpec | src/mitm.rs:1273-1293 | the same, with no Transfer-Encoding line left |
| Headers.IntegrityStripped | src/mitm.rs:1260-1270 | no header that a changed body would invalidate survives either rebuild |
| Headers.KeptMeaning | src/mitm.rs:1260-1322 | a line survives the rebuild exactly when its field is not Content-Length, none of the five integrity fields and, for a chunked body, not Transfer-Encoding, by name in any letter case |
| Headers.CacheFields | src/mitm.rs:1670-1679 | the lines dropped on tracker hosts are exactly the Last-Modified, X-Cache and X-Request-ID fields |
| Headers.EncodingMeaning | src/mitm.rs:1122-1132 | the content coding is the trimmed lower-case value of the first Content-Encoding line, and none if there is none |
| Headers.LengthMeaning | src/mitm.rs:1295-1304 | the announced length is the number the first Content-Length line spells |
| Headers.HtmlMeaning | src/mitm.rs:1108-1118 | a response is HTML exactly when the trimmed value of its first Content-Type line starts with text/html in any letter case |
| Headers.NamesFieldIff | src/mitm.rs:1112-1113 | a line names a field with a value exactly when it is white space, the name in any letter case, white space, a colon and the value |
| Headers.HasChunkedMeaning | src/mitm.rs:1212-1215 | a block counts as chunked exactly when some line holds "transfer-encoding:" and some line "chunked", in any letter case |
| Headers.ReplaceTwice | src/mitm.rs:1306-1322 | replacing the length twice is replacing it once with the last value |
| Headers.StripCacheTrackingSpec | src/mitm.rs:877-904 | dropping cache headers keeps the other lines in order in a complete block, happens exactly when there is one to drop, and leaves none |
| Requests.InjectRefererSpec | src/mitm.rs:1578-1599 | exactly one Referer line, other lines in order, the rest of the request untouched, idempotent; applies exactly to valid UTF-8 with a complete head |
| Requests.StripTrackingQueryParams | src/mitm.rs:1622-1667 | the method with the parameter loop computes the stripping function |
| Requests.FilterParams | src/mitm.rs:1639-1651 | the loop keeps the non-tracking parameters in order and reports whether any was tracking |
| Requests.StripQuerySpec | src/mitm.rs:1622-1667 | kept parameters in order are read back, everything from the first empty line on is unchanged, nothing is left to strip; applies exactly when a tracking parameter is present |
| Requests.TargetIff | src/mitm.rs:1622-1637 | the request is taken apart exactly into the pieces that put together are the request |
| Requests.TrackingKey | src/mitm.rs:1639-1651 | a parameter is tracking by its key alone, in any letter case |
| Requests.StripConditionalSpec | src/mitm.rs:1681-1705 | other lines in order, the rest untouched, nothing left to strip; applies exactly when a conditional header is present |
| Requests.RewriteKeepsTail | src/mitm.rs:582-632 | any combination of the three rewrites leaves everything from the first empty line on unchanged |
| Requests.RewriteChangesNothingIff | src/mitm.rs:582-632 | the rewrites together leave a request as it is exactly when none of the enabled ones finds anything to change: no later rewrite undoes an earlier one |
| Requests.ForwardedHead | src/mitm.rs:582-632 | for every combination of the rewrites: the injected Referer is the last line and no other line behind the first names one, no conditional header is left, and other lines and the tail are unchanged; the first line becomes a Referer line exactly when stripping its parameters makes it one |
| Requests.ForwardedLines | src/mitm.rs:582-632 | the head lines that reach the server, as a function of the lines read: each rewrite works on the result of the one before |
| Requests.QueryForwarded | src/mitm.rs:601-615 | after stripping, no tracking parameter is left in what is forwarded, unless the conditional pass took the request line itself |
| Requests.ForwardedHeadless | src/mitm.rs:582-632 | a read without a complete head can only lose its tracking parameters |
| Requests.OddFirstLine | src/mitm.rs:1622-1667 | a first line that stripping turns into a Referer line |
| Requests.UpgradeIff | src/mitm.rs:1707-1723 | an upgrade is seen exactly when some line names Upgrade with the value websocket, both in any letter case and between white space |
| Requests.RequestFields | src/mitm.rs:1578-1705 | the lines replaced or stripped are exactly those that name Referer, If-None-Match or If-Modified-Since, in any letter case and between white space |
| Domains.NormalizeIdempotentIff | src/policy.rs:1408-1410 | normalizing twice equals normalizing once exactly when, in the trimmed host, no white space is followed by nothing but dots |
| Domains.NormalizeNotIdempotent | src/policy.rs:1408-1410 | the input "x ." on which it is not idempotent |
| Domains.NormalizeHostIff | src/policy.rs:1408-1410 | a host is normalized to n exactly when it is white space, a name whose lower case is n, dots and white space |
| Domains.DomainInSetOrParent | src/policy.rs:1412-1428 | the walk returns true exactly when the non-empty host equals or dot-ends with a member |
| Domains.ListedSubdomains | src/policy.rs:1412-1428 | a listed domain lists every subdomain |
| Domains.LookupOverride | src/policy.rs:1030-1048 | the override walk returns the value at the longest matching suffix key, else the default |
| Domains.LongestMatchSpec | src/policy.rs:1030-1048 | that value in terms of suffixes alone: none iff no key matches, and the longest matching key otherwise |
| Domains.CosmeticWalk | src/policy.rs:1173-1183 | the cosmetic walk collects the lists of the matching suffixes |
| Domains.AllMatchesSpec | src/policy.rs:1173-1183 | they are exactly the matching keys' lists, in strictly decreasing key length |
| Policy.CookieFilterMeaning | src/policy.rs:1001-1066 | with consent enforcement, cookies are filtered exactly when the host has a category that needs more consent than given; without, exactly on tracker hosts |
| Policy.ConsentLevelMeaning | src/policy.rs:1017-1053 | the level is the profile's, else the longest matching override's, else the default |
| Policy.DisabledPlans | src/policy.rs:974-1066 | in Disabled mode none of the three plans asks for anything, for every configuration and filter list |
| Policy.BodyPlanMeaning | src/policy.rs:1125-1222 | every part of the body plan as an if-and-only-if on the configuration, the lists and the host's suffixes |
| Policy.PlanFields | src/policy.rs:955-1078 | mode, WebSocket blocking and profile name are the configuration's |
| Policy.CookieField | src/policy.rs:1310-1313 | the lines filtered are exactly the Set-Cookie fields, by name in any letter case |
| Policy.RebuildHeaders | src/policy.rs:1275-1339 | the header loop computes the filtering function, bytes and count, in every mode |
| Policy.EnforcedLines | src/policy.rs:1289-1322 | the output holds the first line and every non-Set-Cookie line in order, the tail is untouched, and the count is the number of lines dropped |
| Policy.SecondPassCountsZero | src/policy.rs:1310-1320 | a second pass over an enforced block counts nothing, for every block |
| Policy.ReportOnlyAgrees | src/policy.rs:1324-1333 | report-only returns the same bytes and the count Enforce would have |
| Policy.CompleteIffNotEnforced | src/policy.rs:1289-1322 | a complete block stays complete exactly when the filter is not enforced |
| Policy.EnforcedExample | src/policy.rs:1289-1322 | a block without cookies that gains a CRLF |
| Policy.EnforcedLeavesOneCrlf | src/policy.rs:1289-1322 | on a block of non-empty lines exactly one CRLF is left behind the head |
| Policy.EnforcedHeaderLines | src/policy.rs:1289-1322 | the lines read back from an enforced block are the kept lines that are not empty |
| Policy.OutputCompleteIff | src/mitm.rs:834-906 | the block the relay sends is complete unless the filter is enforced and no non-empty kept line of the block received is a cache header |
| Policy.OutputLines | src/mitm.rs:834-906 | the lines a client finds in the block sent: those received that are not empty, without cookies where the filter is enforced and without cache headers on tracker hosts |
| Policy.OutputUnchangedIff | src/mitm.rs:834-906 | a complete block is sent as received exactly when the filter is not enforced and, on a tracker host, no line is a cache header |
| Policy.UnenforcedUnchangedIff | src/mitm.rs:834-906 | the same for every block, complete or not, when the filter is not enforced, as in report-only mode |
| Policy.OutputUnchanged | src/mitm.rs:834-906 | on a host that matches no tracker list the block is sent as received, in every mode |
| RelayLoop.Loop.Turn | src/mitm.rs:542-962 | one turn of the loop takes the phase machine one step and keeps the loop invariant: plan and headers present while buffering, counters equal to bytes written, bounded buffers |
| RelayLoop.Loop.ClientArm | src/mitm.rs:544-643 | the client arm forwards, rewrites or refuses the first read and forwards the others |
| RelayLoop.Loop.UpstreamArm | src/mitm.rs:644-956 | the upstream arm is one read or EOF of the phase machine; the policy counter, raised where the policy is evaluated, is the machine's and stays at most one |
| RelayLoop.Loop.Eof | src/mitm.rs:646-716 | at EOF everything held is sent: the pending head, or the buffered body rewritten or raw |
| RelayLoop.Loop.BodyRead | src/mitm.rs:717-809 | the size limit, chunked and Content-Length exits in the source's order, or more buffering |
| RelayLoop.Loop.HeadRead | src/mitm.rs:813-955 | an oversize head is passed on raw, a complete one is processed, an incomplete one is kept |
| RelayLoop.Loop.HeadComplete | src/mitm.rs:831-954 | the head is filtered, with one evaluation of the header policy, and the body deferred exactly when it can be rewritten and fits |
| RelayLoop.RewriteFirst | src/mitm.rs:582-632 | the three request rewrites in order, each on the result of the one before |
| RelayLoop.Serve | src/mitm.rs:500-972 | the loop over any schedule writes both streams exactly as the phase machine does |
| Relay.ReadKeepsValid | src/mitm.rs:717-954 | every read keeps the phase valid: a pending head of at most 65536 bytes, a body buffer below the larger of 65536 and the size limit |
| Relay.HeadThenPolicy | src/mitm.rs:831-954 | the read that runs the header policy leaves the head phase |
| Relay.RewriteMeaning | src/mitm.rs:995-1100 | a body is rewritten into given bytes if and only if the mode is not report-only and its HTML, decompressed under one of the four codings or as it is, rewrites to what compresses to them or is them |
| Relay.RewriteDecodes | src/mitm.rs:974-1100 | with a lossless codec, a decoded rewritten body is the rewritten HTML of the original, and report-only rewrites nothing |
| Relay.DeferralMeaning | src/mitm.rs:907-954 | a body is held back exactly when something is to be rewritten, the block sent says HTML in a known coding and announces no more than the limit; and how it is then framed |
| Relay.ForbiddenMeaning | src/mitm.rs:573-578 | a refusal is one complete block that says 403 and announces an empty body |
| RelayRuns.RunExplained | src/mitm.rs:542-962 | every run has an account of what the client was sent, under a policy that was in force at a read from upstream; it is Untouched exactly when the header policy never ran |
| RelayRuns.RunValid | src/mitm.rs:516-541 | over every run buffers are bounded, the header policy runs at most once, and nothing is held after EOF |
| RelayRuns.ConservedIff | src/mitm.rs:644-956 | sent plus held equals read exactly when, by the account, the block sent or the new head and body are the ones received |
| RelayRuns.Conservation | src/mitm.rs:644-956 | if no policy in force at an upstream read changes anything in the stream that was read, sent plus held equals read at every moment, and all is sent after EOF |
| RelayRuns.InertConservation | src/mitm.rs:644-956 | in particular under policies that change no stream |
| RelayRuns.ReportOnlyIsInert | src/mitm.rs:1026-1051 | report-only on a host that matches no list changes no response block and rewrites no body; requests are another matter |
| RelayRuns.RewrittenIsFramed | src/mitm.rs:661-709 | a rewritten response is one complete block with one Content-Length line, exactly the rewritten body, and then the rest of the stream unchanged; no Transfer-Encoding line is left exactly when the block received had none or a line passed on says "chunked" |
| TransferEncodingExample.CodingLineLeft | src/mitm.rs:696-709 | a concrete response whose rewritten form, under every cut, holds both lines |
| RelayRuns.RunRequests | src/mitm.rs:550-642 | over every run, what went upstream is what was read, with only the first read refused or rewritten, under a policy that was in force at a client read |
| RelayRuns.ForwardedKeepsTail | src/mitm.rs:582-638 | a forwarded first request is unchanged from its first empty line on |
| RelayRuns.QuietTransparency | src/mitm.rs:544-953 | policies that plan nothing for the host make the relay a wire in both directions |
| RelayRuns.DisabledTransparency | src/mitm.rs:544-953 | in Disabled mode, for every configuration, list and interleaving, both directions are delivered byte for byte |
| CookieStripping.PolicyRunsIff | src/mitm.rs:814-833 | the header policy runs in a run exactly when at some moment everything read was within the limit and held a complete head |
| CookieStripping.AccountCookieFree | src/policy.rs:1289-1322 | under enforcement, the head a client finds in any processed response, rewritten or not, has no Set-Cookie line behind its status line |
| CookieStripping.CookieFreeMeaning | src/policy.rs:1310-1320 | the same by field name: no line behind the status line is Set-Cookie in any letter case |
| CookieStripping.NoCookieSent | src/mitm.rs:644-956 | over every run with the filter enforced at its upstream reads: a first head without Set-Cookie, or, exactly if that head never fitted the limit, the raw stream; later responses are the next rows' |
| CookieStripping.LaterBytesUnchanged | src/mitm.rs:810-812 | in every run the client stream is the first head, the body put in if any, and then the stream read, byte for byte |
| CookieStripping.CookieReachesClientIff | src/mitm.rs:810-954 | under enforcement, a line of the client stream behind its first is Set-Cookie exactly when one is in what follows the first head: the rest of the stream read, behind the body put in if any |
| CookieStripping.LaterCookiesReach | src/mitm.rs:542-962 | the same over every run that processed its first head |
| SecondResponse.SecondResponseKeepsCookies | src/mitm.rs:810-954 | a concrete policy and stream of two responses, the second of which is delivered with its cookie |
| RebuiltHeads.NewHeadSameIff | src/mitm.rs:1260-1322 | the head put in front of a rewritten body is the block received exactly when that block has solid lines, its Content-Length last, only lines that every pass keeps, and no Transfer-Encoding line if it is taken for chunked |
| RebuiltHeads.RewrittenSameIff | src/mitm.rs:661-709 | a run that rewrote a body has sent what it read exactly when the body is unchanged and the block has that form |
| ReportOnlyRuns.RequestUnchangedIff | src/mitm.rs:550-642 | in every mode, the first read is forwarded as it is exactly when it is not refused and no planned rewrite finds anything to change |
| ReportOnlyRuns.RequestsConservedIff | src/mitm.rs:544-643 | over every run, the server is sent what the client sent exactly when no read was checked or the first one satisfies that condition |
| ReportOnlyRuns.ResponsesConservedIff | src/mitm.rs:644-956 | over every run, sent plus held equals read exactly when the head was never processed, was passed by both header passes, or has the form that rebuilds to itself in front of an unchanged body |
| ReportOnlyRuns.ReportOnlyRun | src/mitm.rs:542-962 | in report-only mode no body is rewritten, responses are unchanged exactly when untouched, not of a tracker host or without cache headers, and requests exactly by the condition that holds in every mode |
| ReportOnlyRuns.ReportOnlyStripsCache | src/mitm.rs:877-904 | a concrete report-only policy, tracker host and block that loses its cache header |
| ReportOnlyRuns.ReportOnlyStripsQuery | src/mitm.rs:600-615 | a concrete report-only policy, unlisted host and request that loses its tracking parameter |
| Segmentation.SegmentationIndependence | src/mitm.rs:644-956 | away from the head limit, every cut of a stable stream gives the client the same bytes |
| Segmentation.DeliveredRewritten | src/mitm.rs:661-809 | the ordinary outcome of a held response whose body can be rewritten is the new head, the rewritten body and the rest of the stream |
| Segmentation.DeliveredRaw | src/mitm.rs:661-809 | otherwise it is the block the header policy gives and the stream as it is |
| Segmentation.IndependentIff | src/mitm.rs:644-956 | for every stream, independence of the cut holds if and only if the stated condition does |
| Segmentation.AnyCut | src/mitm.rs:644-956 | every cut of every stream gives one of three described client streams, and one if the stream is stable and away from the head limit |
| Segmentation.UnstableWitness | src/mitm.rs:717-809 | a stream that is not stable has two cuts with the two outcomes |
| Segmentation.RawCut | src/mitm.rs:814-829 | near the head limit some cut passes the whole stream on raw |
| Segmentation.StableWitness | src/mitm.rs:831-954 | near the head limit some cut processes the head |
| Segmentation.OverrunDepends | src/mitm.rs:696-709 | a body that overruns its Content-Length by less than a read is framed differently by different cuts |
| OverrunExample.ExampleDepends | src/mitm.rs:696-709 | a concrete connection, policy and response whose client stream depends on the cut |
| Segmentation.GapReached | src/mitm.rs:814-829 | every long first line in front of enough data is in the region near the head limit |
| Segmentation.GapIndependentIff | src/mitm.rs:814-833 | in that region, with the filter enforced, a stream is independent of the cut exactly when its ordinary outcomes coincide and its body is rewritten into itself under a head that rebuilds to itself |
| Segmentation.GapDepends | src/mitm.rs:814-833 | in that region, with the filter enforced, every stream no part of which would be rewritten depends on the cut |
| GapExample.RewrittenGapIndependent | src/mitm.rs:814-833 | a concrete enforced stream in that region that is independent, because its rewritten body and head are the old ones |
| Segmentation.RunDelivers | src/mitm.rs:542-962 | what the client does never changes what it is sent, unless its first request is refused |
| Segmentation.SchedulesAgree | src/mitm.rs:542-962 | two schedules that read the same stable stream send the client the same bytes, however they are cut and interleaved |
| RequestCuts.RequestsIndependentIff | src/mitm.rs:550-642 | for every client stream, all cuts send the server the same bytes if and only if no possible first read is refused or rewritten |
| RequestCuts.RunDeliversRequests | src/mitm.rs:544-643 | what any run sends the server is settled by its client reads alone |
| RequestCuts.RequestSchedulesAgreeIff | src/mitm.rs:542-962 | the same if-and-only-if over all schedules that read the stream, with any upstream reads in between |
| RequestCuts.SomeCutPasses | src/mitm.rs:550-642 | every client stream has a cut under which it reaches the server as it is |
| RequestCuts.UpgradeDependsOnCut | src/mitm.rs:564-580 | a concrete upgrade request that is refused when read whole and forwarded when its first byte comes alone |
| FilterListParser.ParseFilterList | src/filter_list_parser.rs:73-108 | the rules are those of the lines that parse, in order, and the statistics count every kind and account for every line once |
| FilterListParser.ParseOfPrint | src/filter_list_parser.rs:40-184 | every rule written in list syntax is parsed back to itself |
| FilterListSyntax.StatesIff | src/filter_list_parser.rs:40-201 | a rule is read off a line if and only if the line, without white space around it, is one of the ways of writing that rule |
| FilterListSyntax.OptionsIgnored | src/filter_list_parser.rs:110-184 | options behind `$` do not change a block, URL or exception rule |
| FilterListSyntax.BlockLine | src/filter_list_parser.rs:161-184 | a domain with or without slash, carets and options is a block rule for it |
| FilterListSyntax.UrlLine | src/filter_list_parser.rs:161-184 | a domain with a path, carets and options is a URL rule |
| FilterListSyntax.ExceptionLine | src/filter_list_parser.rs:110-121 | an exception with or without caret and options |
| FilterListSyntax.ScopedLine | src/filter_list_parser.rs:123-159 | a cosmetic rule for several domains is one for the first |
| FilterListSyntax.StatesNothing | src/filter_list_parser.rs:40-70 | blank lines, comments and lines without a marker are no rule |
| FilterListSyntax.ExtendedCssMeaning | src/filter_list_parser.rs:203-222 | a selector is skipped as extended CSS exactly when a part of it, in any letter case, is on the list |
| FilterListSyntax.LinesMeaning | src/filter_list_parser.rs:77 | the lines of a text are those put in, whichever way each was ended |
| FilterListParser.ParsedDomainIsNormal | src/filter_list_parser.rs:110-201 | a domain that reaches the block or exception list is not empty, in lower case, ends with no dot, starts with no white space and holds no pattern character or space |
| FilterListParser.NormalDomainFixedIff | src/filter_list_parser.rs:186-201 | such a domain is a fixed point of host normalization exactly when it does not end in white space |
| FilterListParser.TabDomain | src/filter_list_parser.rs:110-201 | a list line whose domain is not: "x" and a tab |
| FilterList.AggregateRules | src/filter_list.rs:81-140 | the aggregation loops compute the aggregate: sets, sorted lists without duplicates, summed statistics |
| FilterList.AggregateSorted | src/filter_list.rs:123-130 | every list of the aggregate is strictly sorted |
| FilterList.AggregateStats | src/filter_list.rs:81-140 | its statistics count the lines and rules of all sources together, every kind and every line once |
| FilterList.AggregateCanonical | src/filter_list.rs:81-140 | the aggregate is the same for every order of the sources |
| FilterList.ListMeaning | src/policy.rs:1080-1122 | a name is blocked exactly when the policy is on and it is listed by hand, or some line is a way of writing a block of it or a parent domain and no line a way of writing an exception for it or a parent domain |
| FilterList.TrackerMeaning | src/policy.rs:974-1015 | which hosts are trackers and in which category, in terms of list lines and configured suffixes |
| FilterList.SelectorMeaning | src/policy.rs:1163-1185 | a list's global selectors, scoped selectors and script patterns reach the body plan of a host exactly when a line says so and, if scoped, its domain is the host or a parent |
| CertPin.CertPinDb.CheckAndUpdate | src/cert_pin.rs:117-168 | an undisturbed call is exactly its own critical sections of the interleaved system, begin, read and the write its read calls for: same pins, and the logged answer is the one returned; so first seen, matched with a bumped count, or mismatched and unchanged |
| CertPin.CertPinDb.AddFingerprint | src/cert_pin.rs:172-189 | a call is the system's addition step; afterwards the fingerprint is recorded and a check of it hits |
| CertPin.CheckingAlone | src/cert_pin.rs:117-168 | in the interleaved system, after any run with no check under way, the actions of one check give its answer and leave no thread behind |
| CertPin.AcceptedIsRecorded | src/cert_pin.rs:117-168 | under every interleaving, an accepting answer is about a recorded fingerprint |
| CertPin.FingerprintsGrow | src/cert_pin.rs:157-189 | along every run fingerprints are only appended and hosts never removed |
| CertPin.MismatchChangesNothing | src/cert_pin.rs:135-155 | a mismatch reports what is recorded about a fingerprint that is not, and changes no pin |
| CertPin.OtherPinsUntouched | src/cert_pin.rs:117-189 | a step writes at most the pin of its own host and never changes when a host was first seen |
| CertPin.FirstSeenAtMostOnce | src/cert_pin.rs:144-168 | under every interleaving a host is answered FirstSeen at most once, and never if it was loaded |
| CertPin.HitCounts | src/cert_pin.rs:124-134 | a pin's hit count is its starting count plus the fast-path matches, saturating |
| Receipts.ReceiptStore.IncCounter | src/receipts.rs:1609-1626 | a call is exactly the update and flag steps of the interleaved system, run without interruption, so every theorem about its runs holds of the object; an empty host changes nothing |
| Receipts.ReceiptStore.FlushIfDirty | src/receipts.rs:1641-1674 | a call is exactly the swap, prune and snapshot steps of that system; it hands out a snapshot exactly when the store was dirty, and afterwards the last snapshot ever handed out is the map in memory |
| Receipts.RecordingAlone | src/receipts.rs:1609-1626 | after any run that left the store idle, one recorder's steps leave it idle with the update made and flagged |
| Receipts.FlushingAlone | src/receipts.rs:1641-1674 | after any run that left the store idle, one flush's steps leave it idle and clean, with the pruned map as its snapshot if it was dirty |
| Receipts.NoLostReceipt | src/receipts.rs:1609-1653 | under every interleaving of any recorders and flushes, each completed update is covered by the flag, a flush that will still take its snapshot, or the last snapshot |
| Receipts.QuietMeansSaved | src/receipts.rs:1641-1653 | with the flag clear, no flush under way and no recorder in the lock, the last snapshot is the map in memory |
| Receipts.RecentHostKept | src/receipts.rs:26-29 | pruning keeps a host whose updates are no older than the cutoffs that follow them |
| Receipts.StaleHostGone | src/receipts.rs:26-29 | after a prune, a host not written since is no older than the cutoff and unchanged |
| Sni.ParseSni | src/tls_parser.rs:65-123 | the cursor-based parser computes the parsing function, with every read in bounds |
| Sni.ScanExtensions | src/tls_parser.rs:107-122 | the extension loop finds the first server_name extension |
| Sni.ParseSniExtension | src/tls_parser.rs:126-146 | the extension body yields its first host_name entry, and none if the list length is wrong |
| Sni.SniRoundTrip | src/tls_parser.rs:65-146 | every encoded ClientHello with a server name, followed by anything, yields that name |
| Sni.SniStable | src/tls_parser.rs:65-146 | a successful parse is unchanged by appended bytes |
| Sni.SniIffEncoded | src/tls_parser.rs:65-146 | the parser finds a name exactly when the buffer starts with an encoded ClientHello whose host name has those octets |

## Left out

- TLS handshakes, certificate generation, CA files and cipher profiles: wrappers over foreign libraries.
- HTML rewriting, compression and CSS selector validity: foreign libraries, passed in as arbitrary deterministic functions that may fail.
- I/O errors: an error ends the relay, so every prefix of a run is a run; no statement assumes a run reaches its end.
- Header text that is not valid UTF-8: `from_utf8_lossy` is modelled as the identity, so replacement characters in response headers are not.
- `trim` on non-ASCII white space: only ASCII white space is trimmed.
- The two policy reads within one read of either side see one configuration; a reload between them is not modelled. Reloads between reads are.
- The relay's two byte counters are unbounded; `u64` overflow is not modelled.
- Logging, metrics and the receipts written by the relay.
- Lock poisoning: every lock acquisition succeeds.
- Chunked.DecodeIffEncoded: size lines padded with non-ASCII white space, which the source trims, are outside the modelled grammar.
- CertPin.CertPinDb.CheckAndUpdate: whether the file write succeeds is an input, and the written file is not modelled; the clock is an input.
- Receipts.NoLostReceipt: covers what is handed to the persisting task; that task is detached and may fail, so nothing is claimed about the file.
- FilterList.AggregateRules: `sort` and `dedup` of the standard library are one function, not in-place algorithms.
- Sni.ParseSni: record and handshake lengths are skipped by the source and arbitrary here.
- src/dns_filter.rs, src/main.rs, src/host_store.rs, src/dashboard.rs, src/metrics.rs, configuration parsing and report rendering: sockets, plain counters, validation and formatting.
