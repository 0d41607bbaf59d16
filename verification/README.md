# rbsrt core, modelled in Dafny

rbsrt is a Ruby binding for SRT (Secure Reliable Transport). This project
models the parts of the binding that hold their own logic. The SRT engine is
outside the model.

- **Errors** maps SRT error codes to the `SRT::Error` class hierarchy and back.
- **SocketState** covers the socket state symbols, the `ready?`, `connected?`, …
  predicates, and the socket guard that raises `TypeError` for a socket the
  engine no longer knows.
- **Transmission** models the chunked `sendmsg` loop and `recvmsg`.
- **Options** models the validating option setters `passphrase=`, `streamid=`
  (with its getter) and `transmission_mode=`.
- **Connect** models `connect`, which tries each resolved address until the
  engine accepts one.
- **Interest** parses poll interest tokens into an SRT_EPOLL_OPT mask.
- **Poll** models `SRT::Poll` `add`, `update`, `remove` and `wait`. The
  `@sockets` map and the engine's poll set are modelled side by side.
- **Server** models the event dispatch of `SRT::Server#start`:
  - accept or reject through the acceptor block;
  - data delivery to a connection's data callback;
  - teardown with the close callback;
  - the live-connection counter.
- **StreamIdScan** models the `key=value` scanner of
  `SRT::StreamIDComponents`.
- **StreamId** models the record itself:
  - construction from nothing, a Hash or a String;
  - `to_s`;
  - `method_missing` for extra attributes.

Everything the engine decides is an input to the model:
- a socket's status;
- each call's success or error code;
- the bytes a read returns;
- the events a wait reports;
- the addresses a name resolves to.

The acceptor block's verdict and the callbacks it installs are inputs too. Ruby exceptions are the `Raise` case of a `Result`.

Three operations do not do what their code evidently means (see Findings):
the `h` split of a value that starts with `/`, the counter update when the
server rejects a connection, and the loop bound of a poll `wait` when the
engine answers with more ready sockets than the capacity it was given. The
model follows the source as written in all three. A corrected version of each is defined beside it, and the intended
property is proved of the corrected version.

The numeric values of the SRT enumerations are those of SRT's `srt.h`, which
is not part of this model:
- socket statuses INIT..NONEXIST are 1..9;
- EPOLL IN is 1, OUT is 4, ERR is 8 and ET is 2^31;
- SRTT_LIVE is 0 and SRTT_FILE is 1;
- the error codes are major × 1000 + minor.

## Model

| member | source | states |
|---|---|---|
| Errors.ClassOf | ext/rbsrt/rbsrt.c:171-331 | every code the switch names maps to the class carrying that code, and every other code maps to the base `SRT::Error` |
| Errors.LastErrorException | ext/rbsrt/rbsrt.c:333-340 | the raised exception carries the engine's code when it is a known code, and 0 (the base class) otherwise |
| Errors.ClassCodeRoundTrip | ext/rbsrt/rbsrt.c:392-429 | each error class's `Code` constant maps back to that same class |
| Errors.CodesDistinct | ext/rbsrt/rbsrt.c:392-429 | no two error classes share a code |
| SocketState.SymbolOf | ext/rbsrt/rbsrt.c:476-530 | a listed status yields the symbol of that status; an unlisted one yields nil |
| SocketState.CheckSocket | ext/rbsrt/rbsrt.h:220-229 | the guard raises `TypeError` exactly when the engine reports the socket NONEXIST |
| SocketState.State | ext/rbsrt/rbsrt.c:476-530 | `state` raises `TypeError` exactly for a nonexistent socket; otherwise it returns the symbol of the current status |
| SocketState.Is | ext/rbsrt/rbsrt.c:532-593 | each predicate raises exactly when the guard does |
| SocketState.PredicatesAgreeWithState | ext/rbsrt/rbsrt.c:532-593 | on a live socket, `x?` answers true exactly when `state` returns `:x` |
| SocketState.SymbolOfStatusOf | ext/rbsrt/rbsrt.c:476-530 | every symbol is reported for its own status |
| SocketState.SymbolNamesDistinct | ext/rbsrt/rbsrt.c:595-608 | the nine state symbols have distinct names |
| SocketState.NonexistIsNeverReported | ext/rbsrt/rbsrt.c:476-593 | when the state does not change between the guard and the body, `:nonexist` is never returned and `nonexist?` never answers true, because the guard raises first |
| SocketState.NonexistReportedAfterRace | ext/rbsrt/rbsrt.c:476-593 | a socket the engine drops between the guard's query and the body's query is reported as `:nonexist`, and `nonexist?` answers true |
| RubyValues.CString | ext/rbsrt/rbsrt.c:808 | the C view of a String is its longest NUL-free prefix |
| RubyValues.StrnLen | ext/rbsrt/rbsrt.c:1160 | `strnlen` is the C length, capped at the bound |
| RubyValues.Fix2Int | ext/rbsrt/rbsrt.c:2078 | an Integer converts when it fits a C int; otherwise RangeError is raised |
| Transmission.ChunkSize | ext/rbsrt/rbsrt.c:839-840 | a chunk is at most one payload and never runs past the message; it is short only at the end |
| Transmission.SendFrom | ext/rbsrt/rbsrt.c:837-854 | the loop makes at most one write per engine reply, and the first write starts at the current offset with a full payload or the remainder; a successful send reports at least the message length; the loop stops short only by running out of replies, after one write per reply |
| Transmission.SendFromShape | ext/rbsrt/rbsrt.c:837-854 | each write starts where the engine's previous accepted count ended; the loop ends on the first error or once everything is accepted |
| Transmission.SentTotalIsLength | ext/rbsrt/rbsrt.c:837-854 | when the engine never over-reports, a successful send returns exactly the message length |
| Transmission.FullAcceptance | ext/rbsrt/rbsrt.c:837-854 | when every chunk is taken whole, the writes number ceil(len / 1316) (one for an empty message) and together they are the message |
| Transmission.SendFromStep | ext/rbsrt/rbsrt.c:841-853 | one loop round: an error raises; otherwise the loop continues from offset + n or stops at the end |
| Transmission.SendChunks | ext/rbsrt/rbsrt.c:837-854 | the imperative loop makes exactly the writes and outcome of the chunking relation |
| Transmission.Sendmsg | ext/rbsrt/rbsrt.c:795-857 | a dead socket raises TypeError and a non-String raises ArgumentError, before any write; otherwise the writes chain as above |
| Transmission.Recvmsg | ext/rbsrt/rbsrt.c:859-888 | a read error raises the engine's error; no bytes give nil; otherwise it returns exactly the bytes read |
| Options.Finish | ext/rbsrt/rbsrt.c:1079-1088 | after a write, the setter returns true exactly when the engine accepted it; otherwise it raises the engine's error |
| Options.SetPassphrase | ext/rbsrt/rbsrt.c:1143-1196 | nil clears the passphrase. A String is accepted when empty or 10..79 bytes long and is handed over NUL-terminated. Other lengths raise ArgumentError and other types raise TypeError, before the guard |
| Options.SetStreamId | ext/rbsrt/rbsrt.c:966-992 | only a String of at most 512 characters is written, with its NUL; a longer one raises `SRT::Error`, and a non-String raises TypeError |
| Options.GetStreamId | ext/rbsrt/rbsrt.c:994-1018 | it returns the engine's stream id bytes, nil when they are empty, or the engine's error |
| Options.NamedMode | ext/rbsrt/rbsrt.c:1064-1077 | a name selects live or file exactly when its C string spells it |
| Options.SetTransType | ext/rbsrt/rbsrt.c:1020-1092 | a dead socket raises TypeError; any write made is of a mode the argument spells |
| Options.TransTypeAcceptsExactlySpellings | ext/rbsrt/rbsrt.c:1030-1091 | `transmission_mode=` writes a mode exactly when the argument spells it as a String, a Symbol or an integer constant; otherwise it raises RangeError for an out-of-range Fixnum and ArgumentError for the rest |
| Connect.Connect | ext/rbsrt/rbsrt.c:613-687 | both arguments must be Strings on a live socket, or TypeError is raised; a failed resolution raises. Success means some candidate was accepted, and the loop stops at the first one; if all fail, the last engine error is raised |
| Interest.BitOfName | ext/rbsrt/rbsrt.c:1908-1939 | exactly the eight names `in read out write err error et edge` are accepted: `in`/`read` give IN, `out`/`write` give OUT, `err`/`error` give ERR and `et`/`edge` give ET; anything else raises ArgumentError |
| Interest.TokenBit | ext/rbsrt/rbsrt.c:1904-1906 | a token that is neither Symbol nor String raises TypeError |
| Interest.EventMask | ext/rbsrt/rbsrt.c:1898-1943 | folding a token list raises only ArgumentError (an unknown name) or TypeError (a token that is neither Symbol nor String) |
| Interest.EventMaskOkIff | ext/rbsrt/rbsrt.c:1898-1943 | the fold succeeds exactly when every token is valid |
| Interest.EventMaskIsRequestedMask | ext/rbsrt/rbsrt.c:1898-1943 | a successful fold yields exactly the bits that some token requests |
| Interest.EventMaskFirstError | ext/rbsrt/rbsrt.c:1898-1943 | a failing fold raises the error of its first bad token |
| Interest.MaskIgnoresOrderAndRepeats | ext/rbsrt/rbsrt.c:1898-1943 | token lists with the same members give the same answer |
| Poll.Add | ext/rbsrt/rbsrt.c:1993-2018 | `add` succeeds exactly for a live socket with valid tokens that the engine takes; the socket is then mapped and watched with its mask. A failure changes nothing, and the map never holds an unwatched socket |
| Poll.Update | ext/rbsrt/rbsrt.c:2020-2041 | `update` never changes the map and re-watches with the new mask on success; a bad token raises its error |
| Poll.Remove | ext/rbsrt/rbsrt.c:1973-1991 | on a live socket the map forgets the socket even when the engine refuses; on success it returns the object that was added |
| Poll.FailedRemoveForgetsWatchedSocket | ext/rbsrt/rbsrt.c:1979-1987 | a refused remove leaves the engine watching a socket the map has forgotten |
| Poll.Pick | ext/rbsrt/rbsrt.c:2107-2142 | a bucket holds at most one object per event, and only objects the poll maps a socket to |
| Poll.PickAppend | ext/rbsrt/rbsrt.c:2107-2142 | the buckets of two event lists are the concatenation of their buckets |
| Poll.PickMembership | ext/rbsrt/rbsrt.c:2107-2142 | an object is in a bucket exactly when some event for its socket carries that bit |
| Poll.StaleEventsPickNothing | ext/rbsrt/rbsrt.c:2111-2117 | events for unmapped sockets contribute nothing |
| Poll.StaleEventsIgnored | ext/rbsrt/rbsrt.c:2107-2142 | inserting stale events anywhere does not change the buckets |
| Poll.WaitTimeout | ext/rbsrt/rbsrt.c:2074-2084 | a nil timeout waits forever (-1); an Integer must fit a C int; anything else raises TypeError |
| Poll.EventArraySize | ext/rbsrt/rbsrt.c:2089 | the event array holds at least 8 entries and at least one more than the capacity, so even an answer of capacity + 1 is read inside it |
| Poll.ReadAsWritten | ext/rbsrt/rbsrt.c:2107-2109 | the loop reads the first `count` entries of the array, and none for an error or a timeout |
| Poll.Filled | ext/rbsrt/rbsrt.c:2056 | the engine writes at most `capacity` entries; when its count fits, they are exactly the entries the loop reads |
| Poll.Wait | ext/rbsrt/rbsrt.c:2061-2152 | as written: the capacity handed to the engine is the map size; the readable, writable and error buckets hold the mapped objects of the first `count` array entries, in order, so an answer of capacity + 1 also sorts one entry the engine did not write; when the count fits, the buckets are those of the entries the engine wrote; with a block the buckets are yielded |
| Poll.WaitBucketsCorrected | ext/rbsrt/rbsrt.c:2107-2142 | corrected loop bound, the count capped at the capacity: the same buckets as `wait` whenever the count fits, holding only mapped objects |
| Poll.CorrectedReadsOnlyFilled | ext/rbsrt/rbsrt.c:2107-2142 | the corrected buckets depend only on the entries the engine wrote |
| Poll.AsWrittenReadsUnfilledSlot | ext/rbsrt/rbsrt.c:2056-2142 | after `add` of one socket and `update` of another that was never added, two arrays that agree on the one entry the engine wrote give different buckets as written, and the same corrected buckets |
| Poll.RemovedSocketNeverReported | ext/rbsrt/rbsrt.c:1973-2142 | after `remove`, a later `wait` never reports the removed object, whatever the engine still delivers |
| Poll.EmptyPollReportsNothing | ext/rbsrt/rbsrt.c:1956-1971 | a fresh poll reports nothing |
| Server.Inc | ext/rbsrt/rbsrt.c:1676 | the counter increment is modulo 2^64 |
| Server.Dec | ext/rbsrt/rbsrt.c:1701 | the counter decrement wraps from 0 to 2^64 - 1 |
| Server.AcceptStepAsWritten | ext/rbsrt/rbsrt.c:1655-1688 | as written, an accepted socket is handled exactly as the corrected step handles it; a rejection differs from it only in decrementing the counter |
| Server.AcceptStep | ext/rbsrt/rbsrt.c:1655-1688 | corrected accept step: an accepted socket is registered with its callbacks, watched for IN/OUT/ERR when the engine takes it, and counted. A rejected socket is closed, never registered or watched, and leaves the counter unchanged. The acceptor runs once either way |
| Server.TeardownStep | ext/rbsrt/rbsrt.c:1690-1723 | the socket is unwatched and unregistered; only a registered one decrements the counter and fires its close callback, once |
| Server.DataStep | ext/rbsrt/rbsrt.c:1725-1764 | a read touches neither registry, poll set nor counter, and delivers at most the bytes read |
| Server.Step | ext/rbsrt/rbsrt.c:1646-1767 | one event, dispatched on the socket's live state: LISTENING runs the accept step as written, CLOSED, NONEXIST and BROKEN the teardown, and a readable CONNECTED socket the read; any other event changes nothing. The registry gains at most the accepted socket, and the callback trace only grows |
| Server.Batch | ext/rbsrt/rbsrt.c:1646-1769 | over one wait's events as written, the callback trace only grows and the registry gains only sockets that some reaction of the batch names as accepted |
| Server.Dispatch | ext/rbsrt/rbsrt.c:1646-1769 | the loop over one wait's events handles them one at a time, in the engine's order, with the step as written; the callback trace only grows and the registry gains only sockets some reaction names as accepted |
| Server.StepCorrected | ext/rbsrt/rbsrt.c:1655-1688 | the corrected step differs from the step as written only after a rejection, where it leaves the counter unchanged |
| Server.BatchCorrected | ext/rbsrt/rbsrt.c:1646-1769 | over one wait's events with the corrected step, the callback trace only grows |
| Server.CorrectedBatchDiffersOnlyInCount | ext/rbsrt/rbsrt.c:1646-1769 | the corrected loop and the loop as written agree on the registry, the poll set and every callback fired; only the counter differs |
| Server.RejectionWrapsCounter | ext/rbsrt/rbsrt.c:1681-1686 | as written, rejecting from an empty server sets the counter to 2^64 - 1; the corrected step keeps 0 |
| Server.AsWrittenRejectionMiscounts | ext/rbsrt/rbsrt.c:1681-1686 | as written, every rejection breaks the counter's agreement with the registry |
| Server.RejectedFirstConnectionMiscounts | ext/rbsrt/rbsrt.c:1646-1686 | a fresh server whose first connection is rejected reports 2^64 - 1 connections with none registered as written; the corrected loop reports 0 |
| Server.TeardownIdempotent | ext/rbsrt/rbsrt.c:1690-1723 | a second teardown event for the same socket changes nothing, so a close callback fires at most once |
| Server.CloseNotifiedOnlyForRegistered | ext/rbsrt/rbsrt.c:1697-1715 | a close notification goes only to a registered socket's own close callback, and the record is then gone |
| Server.DataDeliveredExactly | ext/rbsrt/rbsrt.c:1725-1764 | a delivery happens only for a readable CONNECTED socket with a data callback, and hands it exactly the bytes read |
| Server.OtherStatesIgnored | ext/rbsrt/rbsrt.c:1766-1767 | events in any other state, and non-readable or failed reads, change nothing |
| Server.StepKeepsLockstep | ext/rbsrt/rbsrt.c:1655-1723 | as written, one event keeps the registry and the poll set in lockstep: every registered socket is watched, every watched socket but the listener is registered, records are keyed by their socket, and the listener is never registered |
| Server.BatchKeepsLockstep | ext/rbsrt/rbsrt.c:1646-1769 | as written, the registry and the poll set stay in lockstep, both ways, over a whole batch |
| Server.AcceptKeepsCount | ext/rbsrt/rbsrt.c:1672-1686 | with the corrected rejection, accepting a new socket or rejecting one keeps the counter equal to the registry size modulo 2^64 |
| Server.TeardownKeepsCount | ext/rbsrt/rbsrt.c:1697-1701 | teardown keeps the counter equal to the registry size modulo 2^64 |
| Server.CorrectedStepKeepsCount | ext/rbsrt/rbsrt.c:1650-1767 | with the corrected rejection, every event keeps the counter equal to the registry size, so `connection_count` reports the live connections |
| Server.CorrectedBatchKeepsCount | ext/rbsrt/rbsrt.c:1646-1769 | with the corrected rejection, the counter stays equal to the registry size over a whole batch |
| Server.InitialInvariants | ext/rbsrt/rbsrt.c:1600-1602 | the server starts with both invariants |
| Server.AcceptReadClose | ext/rbsrt/rbsrt.c:1646-1769 | accepting, reading and closing one connection runs the acceptor, the data callback and the close callback once each, in order, and leaves the server empty |
| StreamIdScan.KeyEnd | lib/rbsrt/streamid_components.rb:67 | the lazy key group takes the whole run of key characters |
| StreamIdScan.ValueStop | lib/rbsrt/streamid_components.rb:67 | the lazy value group stops at the first comma, newline or end |
| StreamIdScan.MatchHere | lib/rbsrt/streamid_components.rb:67 | a match has a non-empty key of key characters and a non-empty value, and consumes at least 3 and at most all characters |
| StreamIdScan.MatchesIsMatchHere | lib/rbsrt/streamid_components.rb:67 | every match the regex describes at a position is the one the scanner finds there |
| StreamIdScan.MatchHereIsMatches | lib/rbsrt/streamid_components.rb:67 | every match the scanner finds is one the regex describes |
| StreamIdScan.MatchesText | lib/rbsrt/streamid_components.rb:50-52 | a printed well-formed pair, followed by nothing or by a comma, is matched whole |
| StreamIdScan.Scan | lib/rbsrt/streamid_components.rb:67 | every scanned pair has a non-empty key and value, and a string of n characters yields at most n / 3 pairs |
| StreamIdScan.ScanJoin | lib/rbsrt/streamid_components.rb:52-67 | scanning the comma join of well-formed pairs gives back exactly those pairs |
| StreamIdScan.ScanSkips | lib/rbsrt/streamid_components.rb:67 | characters that cannot start a key are skipped |
| StreamId.LookupFindsKeys | lib/rbsrt/streamid_components.rb:56 | `extra.key?` holds exactly for the stored keys |
| StreamId.PutKeys | lib/rbsrt/streamid_components.rb:81 | storing a key keeps the insertion order; a new key goes last |
| StreamId.PutThenLookup | lib/rbsrt/streamid_components.rb:81 | after `extra[k] = v`, reading k gives v and every other key is unchanged |
| StreamId.PutKeepsKeysUnique | lib/rbsrt/streamid_components.rb:81 | storing never duplicates a key |
| StreamId.PutAppendsFreshKey | lib/rbsrt/streamid_components.rb:81 | storing a new key appends it |
| StreamId.SlashIndex | lib/rbsrt/streamid_components.rb:73 | `index("/")` finds the first slash, if any |
| StreamId.RangeFromStart | lib/rbsrt/streamid_components.rb:74 | Ruby's `s[0..last]` is a prefix of last + 1 characters, and the whole string for last = -1 |
| StreamId.HostPart | lib/rbsrt/streamid_components.rb:72-78 | the host is the slash-free text before the first slash; the value is host + "/" + the rest |
| StreamId.HostPartAsWritten | lib/rbsrt/streamid_components.rb:73-77 | as written, the host is a prefix of the value: the slash-free text before the first slash when that slash is not the first character, and the whole value otherwise |
| StreamId.HostPartAgreesPastFirstCharacter | lib/rbsrt/streamid_components.rb:73-74 | the as-written and corrected host splits agree unless the value starts with a slash |
| StreamId.LeadingSlashHostAsWritten | lib/rbsrt/streamid_components.rb:73-74 | for a value starting with `/`, the as-written split keeps the whole value, slash included, as the host |
| StreamId.Written | lib/rbsrt/streamid_components.rb:68-82 | a pair writes nothing exactly when it names a mode or type that is not listed; `h` writes the host part as the source splits it; every other field takes the value |
| StreamId.SetField | lib/rbsrt/streamid_components.rb:68-82 | a pair sets its own field as `Written` says and leaves the others and the extras alone; `h` with a slash also sets the resource to the text after the first slash, unless one is already set |
| StreamId.SetFieldCorrected | lib/rbsrt/streamid_components.rb:72-78 | corrected split: the same as `SetField` except that `h` stores the slash-free text before the first slash, and the value is that host, a slash and the rest |
| StreamId.LeadingSlashHostKeptWhole | lib/rbsrt/streamid_components.rb:73-74 | for a value starting with `/`, the pair as written stores the whole value as the host; the corrected pair stores the empty host |
| StreamId.LeadingSlashHostParsedWhole | lib/rbsrt/streamid_components.rb:66-78 | parsing `#!::h=/live/cam` gives the host `/live/cam` and the resource `live/cam` |
| StreamId.LetterField | lib/rbsrt/streamid_components.rb:68-80 | only the exact one-letter keys r, u, m, h, t and s name standard fields |
| StreamId.Apply | lib/rbsrt/streamid_components.rb:68-82 | applying a pair keeps mode and type listed and the extra keys unique |
| StreamId.ApplyEffect | lib/rbsrt/streamid_components.rb:68-82 | a one-letter key writes its field as `Written` says and leaves the extras alone; any other key leaves every standard field alone and stores its value under the String key, leaving the other extras as they were |
| StreamId.ApplyAll | lib/rbsrt/streamid_components.rb:67-83 | applying a list of pairs keeps a valid record valid |
| StreamId.ApplyAllAppend | lib/rbsrt/streamid_components.rb:67-83 | pairs are applied left to right |
| StreamId.LastAssignmentWins | lib/rbsrt/streamid_components.rb:67-83 | for every field but the resource, the last pair assigning it decides; with none, it keeps its value |
| StreamId.SetResourceStays | lib/rbsrt/streamid_components.rb:75 | without an `r` pair, a set resource survives any `h` path |
| StreamId.LastResourceWins | lib/rbsrt/streamid_components.rb:69 | the last `r` pair decides the resource |
| StreamId.HostPathBecomesResource | lib/rbsrt/streamid_components.rb:72-76 | without `r`, the first `h` value with a slash gives the resource: the text after its first slash |
| StreamId.MergeStr | lib/rbsrt/streamid_components.rb:66-84 | merging a string into a valid record keeps it valid |
| StreamId.SymbolField | lib/rbsrt/streamid_components.rb:88-100 | exactly the six Symbol keys name standard fields |
| StreamId.MergeHash | lib/rbsrt/streamid_components.rb:86-104 | merging a Hash keeps mode and type listed and the extra keys unique |
| StreamId.HashFollowsStringRules | lib/rbsrt/streamid_components.rb:86-104 | a Hash of standard Symbol keys has the same effect as the same values written as one-letter pairs |
| StreamId.Init | lib/rbsrt/streamid_components.rb:17-36 | defaults are mode request and type stream; a String without `#!::` at the start becomes the resource; the result is always valid |
| StreamId.UnknownKeyIsReadable | lib/rbsrt/streamid_components.rb:55-81 | an unknown key parsed from a stream id is readable through `method_missing` |
| StreamId.PrefixIsSkipped | lib/rbsrt/streamid_components.rb:30-33 | the `#!::` prefix contributes no pairs |
| StreamId.ToString | lib/rbsrt/streamid_components.rb:38-53 | `to_s` starts with the `!#::` prefix; for a printable record the scanner reads exactly its fields back from it, and merging them into a fresh record rebuilds the record |
| StreamId.PrintedFieldsScanBack | lib/rbsrt/streamid_components.rb:38-84 | the printed prefix contributes no pairs, so a printable record's printed fields scan back and merge into the record itself |
| StreamId.CompiledIdIsNotReparsed | lib/rbsrt/streamid_components.rb:29-39 | feeding `to_s` back to the constructor keeps the whole string as the resource, because the printed prefix `!#::` is not the parsed `#!::` |
| StreamId.StandardPairsRebuild | lib/rbsrt/streamid_components.rb:43-48 | parsing the printed standard fields rebuilds them |
| StreamId.ExtraPairsAppend | lib/rbsrt/streamid_components.rb:50 | parsing the printed extras appends them in order |
| StreamId.FieldsWellFormed | lib/rbsrt/streamid_components.rb:41-50 | a printable record prints only pairs that scan back whole |
| StreamId.PrintParseRoundTrip | lib/rbsrt/streamid_components.rb:38-84 | a printable record printed with the `#!::` prefix parses back to itself |
| StreamId.FirstLine | lib/rbsrt/streamid_components.rb:57 | `^(.*?)` stops at the first newline |
| StreamId.MethodMissing | lib/rbsrt/streamid_components.rb:55-64 | a stored String key is returned first; only a name ending in `=` on its first line stores anything; the record stays valid |
| StreamId.SetThenGet | lib/rbsrt/streamid_components.rb:55-64 | `c.foo = v` returns v, and then `c.foo` reads v |
| StreamId.AbsentAttributeIsNil | lib/rbsrt/streamid_components.rb:55-64 | reading an absent attribute gives nil and changes nothing |
| StreamId.SymbolExtrasAreHidden | lib/rbsrt/streamid_components.rb:56 | extras stored under a Symbol key by a Hash are not readable through `method_missing` |

## Left out

- ext/rbsrt/rbstats.c, rbstats.h and extconf.rb are not part of this model. They hold statistics accessors and the build script.
- Everything inside the SRT engine (handshake, retransmission, encryption, timing) is out of scope. The engine's answers are inputs.
- The GVL release, the `while (running)` loop around each server wait, and the server's 100 ms wait timeout are not modelled. The model covers one batch of events.
- `rbsrt_resolve_address` and `rbsrt_server_accept` are not modelled: nothing in the modelled paths calls them.
- Object allocation, freeing and GC marking are not modelled. Neither are the accessors other than `passphrase=`, `streamid=`/`streamid` and `transmission_mode=` (for example `tsbpdmode`, `rcvsyn`, `sndsyn`), nor bind/listen/close. None of these holds logic beyond one engine call.
- Connect.Connect does not model the ipv4only/ipv6only flags: they are constant 0 in the source, and getaddrinfo is an input.
- Options.SetPassphrase does not model the debug printf of the passphrase to standard output.
- Transmission.Sendmsg: does not model the `(int)RSTRING_LEN` cast at ext/rbsrt/rbsrt.c:809. For a String of 2^31 bytes or more the C length wraps and the source sends a different number of bytes; the model sends the whole String.
- The option setters' lengths passed as C `int` (a passphrase of at most 79 bytes plus its NUL, a stream id of at most 512 plus its NUL) fit, so the model does not truncate them.
- Strings are sequences of characters standing for bytes, with no encodings. For a multibyte String, `streamid=` measures characters with `rb_str_strlen` but hands that many bytes, so the length check and the bytes handed can disagree. That case is not modelled.
- The stream id scanner's `/i` flag is modelled for ASCII letters only.
- Hash subclasses are not modelled; `args.first.class == ::Hash` is taken as "is a Hash".
- StreamId.MergeHash takes String values only. A Symbol for `:mode` or `:type` is represented by its name, since `to_s` makes them equal. Other value types are not modelled.
- Server.AcceptStep does not model callbacks the user changes after the acceptor returns, nor exceptions raised inside user blocks, which unwind the loop.
- Server.AcceptStep does not model the `SRTO_RCVSYN`/`SRTO_SNDSYN` settings on accepted sockets. Nor does it model a failed `srt_accept`, whose result the source never checks; the accepted socket id is an input.
- The server's 1024-entry event array and its 8 × 1316-byte read buffer are not modelled. The events of one wait and the bytes of each read are engine inputs. When more than 1024 watched sockets are ready, `srt_epoll_uwait` answers 1025 and the loop at ext/rbsrt/rbsrt.c:1646 reads `events[1024]`, one past the array; the model does not cover that case.
- Server.StepKeepsLockstep: assumes each accepted socket is new and that `srt_epoll_add_usock` takes it. The source ignores that call's result at ext/rbsrt/rbsrt.c:1674. When the call fails, the step as written registers a socket it does not watch, and the lemma does not cover that case.
- Server.BatchKeepsLockstep: assumes the same engine behaviour at every step of the batch.
- Server.CorrectedStepKeepsCount: holds for the corrected step only. The step as written breaks the counter at the first rejection (see Findings).
- Server.CorrectedBatchKeepsCount: holds for the corrected loop only, for the same reason.
- Server.AcceptKeepsCount: holds for the corrected accept step only, and assumes the accepted socket is not already registered.
- Poll.Wait requires the engine's count to be at most capacity + 1, which is how SRT documents `srt_epoll_uwait` (SRT's epoll code is not part of this model). A larger count would make the source read past its array.
- Options.GetStreamId does not model how the engine stores and truncates stream ids; the bytes it returns are an input.
- Poll.Wait models the value `wait` returns with a block (true) as the `yielded` flag rather than as the block's own effects.

## Findings

| source | as written | input that shows it | evidently intended | confidence | as-written member | corrected member |
|---|---|---|---|---|---|---|
| lib/rbsrt/streamid_components.rb:73-74 | the host of an `h` value is `val[0..(sep - 1)]` | `#!::h=/live/cam`: sep is 0, so the range `0..-1` takes the whole value and the host becomes `/live/cam` (the same at lines 93-94 for `:host_name`) | the host is the text before the first slash, here empty, and `live/cam` becomes the resource | medium, not executed | StreamId.LeadingSlashHostParsedWhole | StreamId.SetFieldCorrected |
| ext/rbsrt/rbsrt.c:1681-1684 | a rejected connection runs `atomic_fetch_sub(&server->num_connections, 1)` | a server with no connections whose acceptor returns false: the counter wraps to 2^64 - 1 and `connection_count` reports it | a rejection leaves the counter unchanged, since it was never incremented for that socket | high, not executed | Server.RejectedFirstConnectionMiscounts | Server.BatchCorrected |
| ext/rbsrt/rbsrt.c:2056, 2107 | `wait` hands the engine the map size as capacity and loops `i < arg.num_events` | a socket watched through `update` but never added (or kept by a refused `remove`) makes more sockets ready than the map holds; `srt_epoll_uwait` then answers capacity + 1, as SRT documents, and the loop sorts `events[capacity]`, an entry the engine did not write | the loop reads at most the entries the engine wrote, the count capped at the capacity | low, not executed; rests on SRT's documented `srt_epoll_uwait` result | Poll.AsWrittenReadsUnfilledSlot | Poll.WaitBucketsCorrected |
