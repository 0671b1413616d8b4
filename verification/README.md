# Verified models of a remote-desktop client

This project models the stateful and codec cores of a RustDesk-based remote-desktop program and
proves what they keep over every input and every run. `dafny verify dfyconfig.toml` checks all of
it; each file holds one module and no file depends on anything outside the project.

| file | what it models |
|---|---|
| Text.dfy | the string operations the codecs use (find, replace, split, trim), with their laws |
| Base64Url.dfy, LicenceName.dfy, LicenceParsing.dfy, LicenceFileName.dfy | the licence carried in the installer's file name, printer and parser |
| BytesCodec.dfy | length-prefixed framing of every TCP stream |
| AddrMangle.dfy | socket addresses mixed with the clock |
| SessionOptions.dfy | option toggles, the login message, and the peer that applies both |
| LoginPassword.dfy | which password is used and which one is saved |
| PeerAddress.dfy | `id@server?key=K` addresses and what a reconnect recovers |
| AudioBuffer.dfy | the audio ring, its level histogram and the drop decision |
| ClipboardCodec.dfy, ClipboardSync.dfy | the clipboard wire form and the two-machine protocol |
| LanPeers.dfy | merging discovery responses into the stored peer list |
| TlsFallback.dfy | the HTTP fallback recursion and its cache |
| TerminalBuffer.dfy, TerminalRelease.dfy | the replay buffer of a terminal session, and when the release build hangs |
| VideoDecoding.dfy | decoder failure counting across display threads |
| Retention.dfy | pruning of old recordings |
| UdpPunch.dfy, ThrottledInterval.dfy | punching back-off and a throttled timer |
| OnlineStates.dfy, Rendezvous.dfy | the online bitmap and the server list |

## Main results

- Licence names: for every licence with ASCII fields, every prefix that holds no separator and no
  licence of its own, every marker the parser knows, every rename suffix and `--` comment, parsing
  the name that holds the printed licence returns the licence. The proof rests on a
  bit-level fact: in base64url of 7-bit bytes a `-` stands only at positions that are 3 modulo 4, so neither `--` nor `-licensed-` can occur in a payload. JSON reading and
  signature checks enter as laws of the libraries, and the laws are shown to be satisfiable by a
  reader that inverts the JSON writer. Names of the `host=` form give the last value of each tag,
  whatever tags there are and in whatever order.
- Framing: however a byte stream is cut into reads, well formed or not, the same frames come out and
  the decoder ends in the same state; a stream of encoded frames comes back frame for frame.
- Address mangling: decoding undoes encoding for every address, port and clock value, although the
  port is read from seven bits too many.
- Options: over every run of toggles, from whatever menu, the peer stays where a fresh login would
  put it if and only if each toggle was safe when made, with the safe toggles spelled out. The
  entries of the Flutter interface may make two toggles and are enabled by what was the case when
  their list was built; over every run of it the peer is in step after each action unless the action
  is one of three, which are named. Two of them need a list that is out of date, and runs that reach
  them are given: in the dialog of the mobile client, View Mode and then an entry that is still
  enabled; and, during view-only, opening the cursor menu and switching following off. Over every
  run, safe or not, the peer's clipboard stays closed while view-only is on.
- Passwords: a password from a shared address book is never saved in any run unless a hash message
  with another salt takes the mark off it; exactly those messages do, and then the next peer info
  with "remember" saves it. Such a run is given. The order in which passwords are tried, and what a
  login leaves saved, are stated candidate by candidate.
- Addresses: a key is read from an address as written if and only if it holds none of the three
  separators, and a later connection without the key finds the same peer, server and key.
- Audio: the in-place histogram pass, which wipes bucket 0 before using it as the running maximum,
  takes the decision of the plain specification; a drop is even, under a third of the buffer and
  in time at most two thirds of the lowest level recorded, plus one sample; over every run the ring is the end of the stream. It stays on
  frame boundaries over every run if and only if there are at most two channels, or the sample rate
  is a multiple of 80, or it is a multiple of 40 and the number of channels is even; at 44.1 kHz and
  three channels two appends are enough to leave them.
- Clipboards: nothing delivered is ever sent back until the user copies again; the codec returns a
  clipboard unchanged if and only if each entry survives by itself. The uncompressed branch for special formats sends the name
  in place of the data (src/clipboard.rs:604-619), so such an entry survives only if the two agree.
- LAN peers: order, online flags and addresses of every entry after every run. Responders are kept
  by id, entries by id and user name; so after another user of the same machine has responded,
  stored addresses outlive a response that does not mention them.
- Terminal buffer: over every run it holds the end of the output, and its byte count is short by
  exactly the bytes that completed a line, because that branch does not count them
  (src/server/terminal_service.rs:390-393). It is always cut into the lines of the text it holds, as
  long as no chunk is longer than a megabyte. An append works if and only if the count covers the lines
  it pushes out; for lines within the size limit that is to say, the lines beyond the limit of
  lines. The release build does not check for overflow (Cargo.toml:243-249): there the count
  wraps, every line is dropped and the loop turns for ever, in exactly the runs in which the count
  would go below zero. Output of one character, then its line feed, does it at line 20001; reads of
  at most 4096 bytes do it at line 10003.

Where code and comments disagree the code is followed: the retention limit is 5 GB in the code and
10 GB in a comment (src/employee_manager.rs:394, src/employee_manager.rs:433).

## How the models are built

Bytes are integers from 0 to 255 and shifts and masks are written as multiplication, division and
remainder. Clocks, network answers, file removal, the result of decoding a frame and the libraries
(JSON, signatures, hashing, compression, the IPv6 pattern) are parameters; what is needed of a
library is stated as a law. Code that updates fields or loops over variables is a class or a method
proved against a function; the laws are proved about the functions.

## Model

| member | source | states |
|---|---|---|
| Base64Url.DecodeEncode | src/naming.rs:6 | decoding gives back the bytes, for every byte string |
| Base64Url.EncodeDecode | src/custom_server.rs:28 | the decoder accepts only text that the encoder prints (no padding, no stray trailing bits) |
| Base64Url.Sextet62Position | src/naming.rs:5-8 | for 7-bit bytes the sextet printed as `-` occurs only at positions 3 modulo 4 |
| Base64Url.LastSextet | src/naming.rs:5-8 | a closing brace leaves one of three last characters |
| LicenceName.ReadWritten | src/custom_server.rs:9-19 | the JSON text of a licence determines the licence, with all escapes |
| LicenceName.JsonLayout | src/custom_server.rs:9-19 | the text of a licence without escapes: the four fields in this order |
| LicenceName.EscapedControls | src/custom_server.rs:9-19 | how control characters are escaped |
| LicenceName.LawsAreConsistent | src/custom_server.rs:29-36 | the laws assumed of the JSON and signature libraries can be met |
| LicenceName.GenNameShape | src/naming.rs:5-8 | alphabet, dash positions and end characters of every printed licence |
| LicenceName.ConfigStringRoundTrip | src/custom_server.rs:21-37 | reading a printed licence gives the licence |
| LicenceName.SignedRoundTrip | src/custom_server.rs:28-36 | a signed licence is read from what the signature covers; anything else signed or unsigned is refused |
| LicenceName.SegmentsInOrder | src/custom_server.rs:94-105 | segments and their pieces between parentheses are searched in order |
| LicenceName.FirstLicenceAt | src/custom_server.rs:94-105 | the licence is that of the first candidate that is one |
| LicenceName.FirstLicenceNone | src/custom_server.rs:94-108 | without such a candidate there is none |
| Text.TrimBoth | src/custom_server.rs:95 | trimming removes the blanks on both sides and nothing else |
| LicenceParsing.NotInsidePayload | src/custom_server.rs:89-92 | no `-licensed-` marker starts inside a payload or across its end |
| LicenceParsing.Normalised | src/custom_server.rs:89-92 | the three replacements reduce any marker to `--` and change neither prefix nor payload |
| LicenceParsing.PayloadSegment | src/custom_server.rs:93 | splitting on `--` isolates the payload, with a rename suffix if there is one |
| LicenceParsing.LicensedNameFound | src/custom_server.rs:93-106 | the segment search returns the licence and no earlier segment |
| LicenceParsing.ForeignPrefixSkipped | src/custom_server.rs:94-104 | a prefix with single dashes and a character no licence holds, such as a product name with a version, is skipped |
| LicenceFileName.ParseHostFields | src/custom_server.rs:61-87 | the loop yields for each field the value of its last tagged part |
| LicenceFileName.LicenceRoundTrip | src/custom_server.rs:39-108 | file names of the licensed form, with any marker, tail and extension, parse to the printed licence |
| LicenceFileName.RustdeskRoundTrip | src/custom_server.rs:39-108 | the same for the product's own name, whose prefix is rejected as a licence |
| LicenceFileName.HostRoundTrip | src/custom_server.rs:59-87 | any parts behind a host field, tags in any order and letter case, give for each field its last value, or nothing if the tag is absent; other parts are ignored |
| LicenceFileName.HostLicenceRoundTrip | src/custom_server.rs:59-87 | with no tag twice the name gives back the licence it was made from |
| BytesCodec.Codec.DecodeHead | libs/hbb_common/src/bytes_codec.rs:41-66 | incomplete and oversized headers are left in place, complete ones give the length |
| BytesCodec.Codec.Decode | libs/hbb_common/src/bytes_codec.rs:80-107 | one decoder call, framed and raw, state kept between calls |
| BytesCodec.Codec.EncodeData | libs/hbb_common/src/bytes_codec.rs:113-135 | the four header forms and raw mode |
| BytesCodec.ShortestHeader | libs/hbb_common/src/bytes_codec.rs:119-131 | the header has as many bytes as the length needs, and payloads that need more than four are refused |
| BytesCodec.OversizedFails | libs/hbb_common/src/bytes_codec.rs:60-62 | a frame over the limit fails the stream after the frames before it, however it is cut |
| BytesCodec.HeaderDecodes | libs/hbb_common/src/bytes_codec.rs:119-128 | each of the four header forms names its own length and the payload's |
| BytesCodec.DrainSplit | libs/hbb_common/src/bytes_codec.rs:80-107 | decoding a stream is decoding a prefix and carrying on |
| BytesCodec.ChunkingIrrelevant | libs/hbb_common/src/bytes_codec.rs:76-108 | for any byte stream, frames, failure and final state do not depend on how it is cut into reads |
| BytesCodec.StreamRoundTrip | libs/hbb_common/src/bytes_codec.rs:76-135 | encoded frames arrive frame for frame under every cutting |
| AddrMangle.Encode | libs/hbb_common/src/lib.rs:143-174 | the bytes sent: mangled IPv4 without trailing zeros, or eighteen bytes of IPv6 |
| AddrMangle.UnmanglePort | libs/hbb_common/src/lib.rs:194 | the surplus clock bits vanish when the port is cut to 16 bits |
| AddrMangle.RoundTrip | libs/hbb_common/src/lib.rs:143-199 | decode after encode is the address with embedded IPv4 rewritten, for every clock |
| AddrMangle.EmbeddedIffRewritten | libs/hbb_common/src/lib.rs:129-140 | exactly the embedded addresses become the IPv4 address they embed; the loopback and others stay |
| AddrMangle.EmbeddedRoundTrip | libs/hbb_common/src/lib.rs:129-199 | an embedded address arrives as the one it embeds |
| AddrMangle.EncodedShape | libs/hbb_common/src/lib.rs:154-172 | IPv4 takes the fewest bytes, at most eleven; IPv6 the address and the port, low byte first |
| AddrMangle.WrongLength | libs/hbb_common/src/lib.rs:179-182 | other lengths over sixteen are read as no address |
| SessionOptions.LoginConfigHandler.ToggleOption | src/client.rs:2042-2187 | message and both copies of the configuration after a toggle |
| SessionOptions.SwitchAfterRun | src/client.rs:2042-2158 | over every run a switch goes by the parity of its toggles; privacy mode is never changed |
| SessionOptions.CursorStep | src/client.rs:2146-2158 | the own cursor is flipped by its name and switched off with view-only |
| SessionOptions.OptionAfterRun | src/client.rs:2159-2172 | over every run a free-form option goes by the parity of its toggles and is switched on as "Y" |
| SessionOptions.InputAfterRun | src/client.rs:2117-2120 | over every run the peer's input is blocked if the last name about it was to block it |
| SessionOptions.InputUntouched | src/client.rs:2117-2120 | other names leave the peer's input alone |
| SessionOptions.RequestsChangeNothing | src/client.rs:2101-2120 | privacy mode is asked for as the opposite of what is stored; requests change nothing stored |
| SessionOptions.WhichCopyCounts | src/client.rs:2042-2187 | which of store and memory a toggle goes by, where they differ |
| SessionOptions.ViewOnlyEndsFromMemory | src/client.rs:2140-2150 | what is announced when view-only ends is read from memory |
| SessionOptions.LoginSaysYes | src/client.rs:2202-2274 | a login message only says Yes; sessions without options set nothing, terminal sessions at most their own |
| SessionOptions.StepInSync | src/client.rs:2202-2274 | from a session in step, a toggle keeps it in step if and only if it is safe |
| SessionOptions.InSyncIffSafe | src/client.rs:2042-2187 | over every run from a login: always in step if and only if every toggle was safe |
| SessionOptions.OwnCursorRecovers | flutter/lib/desktop/widgets/remote_toolbar.dart:1962-1988 | showing the own cursor is out of step after its first toggle and in step again after its second |
| SessionOptions.ActionInSync | flutter/lib/common/widgets/toolbar.dart:481-755 | an action of the interface keeps a session in step if and only if it is none of three named ones |
| SessionOptions.UiInSyncIff | flutter/lib/common/widgets/toolbar.dart:481-755 | over every run of the interface from a login: in step after each action if and only if none was one of the three |
| SessionOptions.FreshMenusStayInSync | flutter/lib/common/widgets/toolbar.dart:481-755 | every run whose actions find the lists up to date stays in step |
| SessionOptions.StaleEntry | flutter/lib/mobile/pages/remote_page.dart:1186-1280 | the list is opened, View Mode switched on, and an entry that is still enabled puts the peer out of step |
| SessionOptions.UiKeepsCursor | flutter/lib/desktop/widgets/remote_toolbar.dart:1940-1988 | the interface never leaves the own cursor on without view-only |
| SessionOptions.ActionEffects | flutter/lib/common/widgets/toolbar.dart:481-755 | what each action does to view-only, the own cursor, following and the remote cursor |
| SessionOptions.ListsKeepWhatTheySaw | flutter/lib/common/widgets/toolbar.dart:481-755 | a list takes down the options when it is opened and keeps that until it is opened again |
| SessionOptions.AlwaysOffered | flutter/lib/common/widgets/toolbar.dart:553-629 | entries that do not depend on view-only are always offered and never upset |
| SessionOptions.StaleFollow | flutter/lib/common/widgets/toolbar.dart:521-551 | opening the cursor menu and switching following off during view-only hides a cursor that a login would show |
| SessionOptions.ViewOnlyResynchronises | src/client.rs:2125-2150 | from any state, toggling view-only restores the five settings it governs |
| SessionOptions.ViewOnlyClosesClipboard | src/server/connection.rs:1769-1782 | over every run of toggles the keyboard setting follows view-only, so the clipboard service stays closed during view-only |
| SessionOptions.ClipboardServedIff | src/server/connection.rs:1769-1782 | in step, the clipboard is served if and only if it is permitted, view-only is off and it is not disabled |
| SessionOptions.UnsafeToggleFlipsSetting | src/client.rs:2077-2084 | a toggle during view-only that flips a setting of the peer away from what a login says, without opening the clipboard |
| SessionOptions.TerminalInSync | src/client.rs:2210-2217 | terminal sessions stay in step in the one option they use |
| LoginPassword.Handler.HandleHash | src/client.rs:3375-3437 | the password used is the first available in a fixed order, with its source noted |
| LoginPassword.HashOrder | src/client.rs:3375-3437 | the order of application, one statement per candidate, with the source noted |
| LoginPassword.OriginsTrack | src/client.rs:3375-3437 | where the password in use and the saved one come from, event by event |
| LoginPassword.Handler.HandleLoginFromUi | src/client.rs:3542-3560 | a typed password replaces the one in use, an empty one falls back to the saved one |
| LoginPassword.Handler.HandlePeerInfo | src/client.rs:2513-2538 | what is saved after a successful login |
| LoginPassword.TypedThenLogin | src/client.rs:3542-3560 | a typed password is saved by the next login if and only if the user wants that; otherwise nothing stays saved |
| LoginPassword.EmptyThenLogin | src/client.rs:3542-3552 | without one the choice of remembering stays, and the password in use or else the saved one is used |
| LoginPassword.RefusedFallsBack | src/client.rs:3319-3326 | a refused password is not tried again; the saved one is |
| LoginPassword.SavedAfterLogin | src/client.rs:2519-2538 | what a login leaves saved, by the origin of its password |
| LoginPassword.StepGuarded | src/client.rs:3375-3437 | of all events exactly the hash messages with another salt lift the guard on shared passwords |
| LoginPassword.SharedNeverSaved | src/client.rs:2519-2538 | no run without such a message saves a shared password |
| LoginPassword.AlwaysGuardedIff | src/client.rs:2519-2538 | the guard holds throughout a run if and only if there is no such message |
| LoginPassword.OneSaltGuarded | src/client.rs:1685-1716 | with one salt there is no such message in any run, with or without a switch of sides |
| LoginPassword.SharedLoginKeepsOrClears | src/client.rs:2519-2538 | peer info under a shared password only keeps or clears the saved one |
| LoginPassword.UnmarkedIsSaved | src/client.rs:2519-2528 | in every run, after such a message the next peer info with "remember" saves the shared password |
| LoginPassword.SharedSaved | src/client.rs:3375-3437 | a run of two hash messages and peer info that saves a shared password |
| PeerAddress.ParseArgs | src/client.rs:1795-1802 | arguments by lower-cased name, later ones win, only the first `=` separates |
| PeerAddress.ArgumentIsLast | src/client.rs:1795-1802 | an argument has the value of the last part that names it |
| PeerAddress.ArgumentIsNamed | src/client.rs:1795-1802 | an argument is there if and only if some part names it |
| PeerAddress.RelaySuffix | src/ui_interface.rs:1460-1466 | a relay suffix with either slash is cut off, and nothing else |
| PeerAddress.PlainId | src/client.rs:1814-1820 | an id without a server |
| PeerAddress.PublicServerKey | src/client.rs:1792-1793 | the public server has the built-in key |
| Text.LowerLetters | src/client.rs:1798 | lower-casing changes the capital letters only |
| Text.SpaceCharacters | src/custom_server.rs:95 | the characters that trimming removes |
| Text.ContainsIff | src/custom_server.rs:59 | a text contains what occurs in it somewhere |
| Text.SuffixIff | src/custom_server.rs:40-46 | a text ends with what can be put behind some other text to give it |
| PeerAddress.LoginConfigHandler.Initialize | src/client.rs:1785-1857 | id, server, key and forced relay from address, saved options and settings |
| PeerAddress.LoginConfigHandler.HandlePeerInfo | src/client.rs:2539-2550 | key and forced relay are written back |
| PeerAddress.RelayIff | src/client.rs:1847-1851 | a relay is forced if and only if one of four reasons holds |
| PeerAddress.ServerAndKey | src/client.rs:1852-1857 | server and key: named, or else from before and from the store |
| PeerAddress.RememberedOptions | src/client.rs:2539-2550 | two options are written back and all others stay |
| PeerAddress.KeyReadIff | src/client.rs:1785-1805 | the key is read as written if and only if it holds none of the separators |
| PeerAddress.Reconnect | src/client.rs:1785-1857 | a second connection without the key recovers id, server and key, and a forced relay stays forced |
| AudioBuffer.Buffer.constructor | src/client.rs:1200-1210 | initial capacity and rate |
| AudioBuffer.Buffer.Resize | src/client.rs:1214-1222 | capacity stays three seconds; a new capacity empties the ring |
| AudioBuffer.Buffer.Record | src/client.rs:1228-1232 | the level is counted in a bucket that always exists |
| AudioBuffer.Buffer.Scan | src/client.rs:1247-1268 | the in-place pass clears the histogram and finds leading zeros and running maximum |
| AudioBuffer.SameDecision | src/client.rs:1247-1284 | forgetting bucket 0 never changes the amount dropped |
| AudioBuffer.Buffer.Shrink | src/client.rs:1247-1284 | the amount is that of the plain specification, and the histogram restarts |
| AudioBuffer.Buffer.TryShrink | src/client.rs:1224-1284 | one level recorded per call, one decision per elapsed window |
| AudioBuffer.DropIsCautious | src/client.rs:1263-1284 | a drop is even, under a third of the buffer, and in time at most two thirds of every level recorded at whatever rate, plus one sample |
| AudioBuffer.LowLevelsKept | src/client.rs:1270-1275 | nothing is dropped when all levels recorded were below 600 ms |
| AudioBuffer.DropMeans | src/client.rs:1247-1284 | the amount in terms of the lowest and the most frequent level recorded |
| AudioBuffer.QuietWindow | src/client.rs:1234-1245 | for twelve seconds levels are only recorded |
| AudioBuffer.Buffer.AppendPcm2 | src/client.rs:1289-1303 | the newest samples that fit are kept |
| AudioBuffer.Buffer.AppendPcm | src/client.rs:1308-1311 | the step of a run: appended samples minus an even number from the front, still the end of the stream |
| AudioBuffer.Buffer.PopSlice | src/client.rs:1484-1516 | playback takes what it asks for, or all there is, from the front |
| AudioBuffer.RunIsStreamEnd | src/client.rs:1289-1303 | over every run the ring is the end of the stream, within the capacity |
| AudioBuffer.WholeAmountIff | src/client.rs:1276-1280 | when exactly the amount dropped at a level is a whole number of frames |
| AudioBuffer.RunsKeepFrames | src/client.rs:1224-1303 | at fitting rates every run from any state on frame boundaries stays on them, for any number of channels |
| AudioBuffer.FramesKeptIff | src/client.rs:1224-1303 | every run stays on frame boundaries if and only if rate and channels fit; otherwise two appends leave them |
| AudioBuffer.ThreeChannelsLoseFrames | src/client.rs:1276-1284 | such a run at 44.1 kHz with three channels |
| ClipboardCodec.ItemRoundTrip | src/clipboard.rs:544-672 | an entry comes back unchanged if and only if it survives: compression undone, dimensions in range, special data compressed or equal to its name |
| ClipboardCodec.UncompressedSpecialIsItsName | src/clipboard.rs:604-619 | a special entry that does not compress arrives as its own name |
| ClipboardCodec.MultiRoundTrip | src/clipboard.rs:634-680 | the supported entries come back in order if and only if each survives |
| ClipboardCodec.CreateConcat | src/clipboard.rs:634-645 | entries are packed one by one, in order |
| ClipboardCodec.KeepConcat | src/clipboard.rs:634-645 | what is kept of a clipboard is kept entry by entry, in order |
| ClipboardCodec.UnpackConcat | src/clipboard.rs:674-680 | entries are unpacked one by one, in order |
| ClipboardCodec.OneEntry | src/clipboard.rs:621-672 | one entry: only file lists are not sent, and what cannot be read is left out |
| ClipboardCodec.WireForm | src/clipboard.rs:544-632 | when an entry is compressed, and what else its message holds |
| ClipboardCodec.NotText | src/clipboard.rs:648-672 | bytes that are no text: texts are left out, drawings come in empty, the rest as it is |
| ClipboardSync.GetFormatsFilter | src/clipboard.rs:328-357 | tagged content is not read unless forced; tag and empty text are filtered out |
| ClipboardSync.FilterConcat | src/clipboard.rs:348-356 | the filter works entry by entry, in order |
| ClipboardSync.FilterOne | src/clipboard.rs:348-356 | only the tag and empty text are filtered out |
| ClipboardSync.WhatIsRead | src/clipboard.rs:315-357 | what a check reads: nothing from tagged content or files handled apart, else what the filter leaves |
| ClipboardSync.OwnerBits | src/clipboard.rs:511-523 | the marks of both sides, and when content counts as the program's own |
| ClipboardSync.NeverEchoes | src/clipboard.rs:207-232 | in every run each message stems from something copied on its sender, and each clipboard is tagged or its user's |
| ClipboardSync.DeliveredIsNotSentBack | src/clipboard.rs:315-357 | after a delivery, whatever happens, checks send nothing until the user copies |
| ClipboardSync.MessagesCarryNoTag | src/clipboard.rs:348-356 | no message in any run carries the owner tag |
| ClipboardSync.CopyArrives | src/clipboard.rs:199-232 | a copy, checked and delivered, puts the same entries and the tag on the other machine |
| ClipboardSync.WholeCopyArrives | src/clipboard.rs:199-232 | entries that can be sent and survive arrive whole, in order, with the tag of the receiver |
| ClipboardSync.MessagesQueue | src/clipboard.rs:199-232 | messages queue; empty ones and failed writes leave the clipboard alone |
| LanPeers.HandleReceivedPeers | src/lan.rs:305-344 | the receive loop |
| LanPeers.RunOrder | src/lan.rs:317-325 | responders first, latest first, then the others in stored order, nobody twice |
| LanPeers.RecentMeaning | src/lan.rs:318-325 | that order in terms of the position of the last response, of exactly those who responded |
| LanPeers.RunEntry | src/lan.rs:306-325 | every entry after every run: offline and as stored, or as in its latest response with the addresses collected, earlier ones winning |
| LanPeers.AddressesAreThoseOfResponses | src/lan.rs:317-324 | when the addresses are exactly those the responses mention |
| LanPeers.FirstMentionCounts | src/lan.rs:317-324 | where responses disagree about an address, the first that mentions it counts |
| LanPeers.LatestIsLast | src/lan.rs:317-325 | the latest response is the last one of that peer |
| LanPeers.ShadowedIff | src/lan.rs:315-324 | stored addresses outlive a run if and only if somebody else with the id responded first |
| LanPeers.StaleAddressSurvives | src/lan.rs:317-324 | a stored address that outlives the run |
| TlsFallback.SameRecursion | src/common.rs:1240-1346 | both recursive functions make the same attempts |
| TlsFallback.RequestFollowsPlan | src/common.rs:1150-1232 | the recursion walks a plan of one, two or four attempts, strict before lax with each backend |
| TlsFallback.PlanInFull | src/common.rs:1150-1232 | the plan spelled out for each state of the cache |
| TlsFallback.MalformedIsNotSent | src/common.rs:1254-1275 | a malformed request makes no attempt |
| TlsFallback.WalkTrace | src/common.rs:1186-1231 | it stops at the first outcome that is not a request error and remembers exactly a success |
| TlsFallback.NeverLaxUnlessAllowed | libs/hbb_common/src/tls.rs:84-98 | without permission no attempt skips the certificate check, whatever is cached |
| TlsFallback.SuccessIsRemembered | libs/hbb_common/src/tls.rs:42-61 | after a success the next request is that one attempt, whether or not insecure ones are allowed; a failure changes nothing |
| TlsFallback.CacheIsPerServer | libs/hbb_common/src/tls.rs:42-61 | unencrypted addresses are asked once and not cached; other servers' entries stay |
| TerminalBuffer.OutputBuffer.AppendData | src/server/terminal_service.rs:380-433 | one append of the release build, with a count that wraps, and whether it returns |
| TerminalBuffer.OutputBuffer.PushLines | src/server/terminal_service.rs:403-425 | pushes the lines of the data and counts them |
| TerminalBuffer.OutputBuffer.PushPieces | src/server/terminal_service.rs:410-425 | the loop over pieces, with its flags for the last one |
| TerminalBuffer.LinesShape | src/server/terminal_service.rs:403-425 | lines are not empty and end in their only line feed, except perhaps the last |
| TerminalBuffer.OutputBuffer.TrimLines | src/server/terminal_service.rs:427-432 | old lines are dropped while there are too many bytes or lines, and whether that ends |
| TerminalBuffer.OutputBuffer.GetRecent | src/server/terminal_service.rs:435-449 | the longest run of last lines within a size |
| TerminalBuffer.AppendKeeps | src/server/terminal_service.rs:380-433 | the newest bytes are kept, and the count falls behind by the bytes that completed a line |
| TerminalBuffer.RunKeepsTheEnd | src/server/terminal_service.rs:380-433 | over every run the buffer is the end of the output, and the shortfall of the count adds up |
| TerminalBuffer.ReplayIsTheEnd | src/server/terminal_service.rs:435-449 | what is replayed is, after every run, the end of all output within the size asked for |
| TerminalBuffer.CountExactIff | src/server/terminal_service.rs:387-393 | the count is right if and only if no chunk of the run completed a line |
| TerminalBuffer.BufferHoldsLines | src/server/terminal_service.rs:380-433 | over every run of chunks within a megabyte the buffer is cut into the lines of the text it holds, and the flag says whether that ends inside a line |
| TerminalBuffer.LimitsHold | src/server/terminal_service.rs:427-432 | a chunk with a line feed leaves count and number of lines within their limits |
| TerminalBuffer.TrimmedIff | src/server/terminal_service.rs:427-432 | dropping succeeds if and only if at least as many bytes stay as the count is short |
| TerminalBuffer.AppendIff | src/server/terminal_service.rs:380-433 | an append works if and only if the count covers the lines it pushes out |
| TerminalBuffer.AppendClosedForm | src/server/terminal_service.rs:427-432 | with lines within the size limit, an append works if and only if it adds no line or the count covers the lines beyond the limit of lines |
| TerminalBuffer.RunIff | src/server/terminal_service.rs:380-433 | a run works if and only if the count suffices at every chunk |
| TerminalBuffer.ExactNeverFails | src/server/terminal_service.rs:380-433 | a run in which no chunk completes a line works and stays within both limits |
| TerminalRelease.ReleaseEndsIff | src/server/terminal_service.rs:427-432 | for any lines and count, when exactly the loop of the release build ends |
| TerminalRelease.ReleaseRunAgrees | src/server/terminal_service.rs:380-433 | over every run the release build hangs where the count would go below zero, and otherwise does the same |
| TerminalRelease.ReleaseHangsIff | src/server/terminal_service.rs:427-432 | the release build hangs in a run if and only if some chunk finds a count that does not cover what it pushes out |
| TerminalRelease.HangsClosedForm | src/server/terminal_service.rs:427-432 | the same in closed form, with lines within the size limit |
| TerminalRelease.HalvesRunIff | src/server/terminal_service.rs:387-432 | lines written in two halves: the count after any number of them, and when the run fails |
| TerminalRelease.ReleaseHangs | src/server/terminal_service.rs:1134 | such a run with reads of at most 4096 bytes hangs at line 10003 and not before |
| TerminalRelease.ShortLinesHang | src/server/terminal_service.rs:387-432 | lines of one character, written before their line feed, hang at line 20001 and not before |
| VideoDecoding.VideoHandler.HandleFrame | src/client.rs:1583-1633 | failure counter and first-frame flag after a frame |
| VideoDecoding.VideoHandler.Reset | src/client.rs:1636-1648 | a new decoder starts afresh |
| VideoDecoding.CounterThreshold | src/client.rs:1602-1618 | the counter reaches its limit exactly if all frames since the reset failed or the last three did |
| VideoDecoding.RunConsistent | src/client.rs:2888-2907 | in every interleaving no format is listed twice and one update is sent per entry |
| VideoDecoding.MarkedIff | src/client.rs:2888-2907 | when exactly a frame marks its format as unsupported |
| VideoDecoding.DecoderFormat | src/client.rs:1583-1587 | a thread has a decoder once it had a frame, for the format of the last one |
| VideoDecoding.DecoderSince | src/client.rs:1583-1648 | validity and outcomes of a decoder in terms of the event that created it and the frames since |
| VideoDecoding.MarkedByEvents | src/client.rs:2888-2907 | when exactly a frame marks its format, in terms of events alone |
| Retention.CleanupOldFiles | src/employee_manager.rs:402-449 | expired files, files tried, and the bytes accounted for |
| Retention.FreshConcat | src/employee_manager.rs:407-429 | files are listed entry by entry, in order |
| Retention.FreshOne | src/employee_manager.rs:407-429 | an entry is listed if and only if it is a recording with a readable time that is not over two days old |
| Retention.TriedWhileOver | src/employee_manager.rs:438-446 | files are tried for exactly as long as what is left is over the limit, whichever removals fail |
| Retention.RemoveOldest | src/employee_manager.rs:434-447 | the total is always the size of what is left; it ends within the limit or with every file tried |
| Retention.SortOrdered | src/employee_manager.rs:436 | the sort puts the oldest first |
| Retention.SortStable | src/employee_manager.rs:436 | files of the same age stay in order |
| Retention.OlderGoesFirst | src/employee_manager.rs:436-446 | no file is tried while a strictly older one is spared |
| Retention.ShortestPrefix | src/employee_manager.rs:434-447 | if removals succeed, the files removed are the shortest run of oldest ones that reaches the limit |
| UdpPunch.IntervalGrows | src/common.rs:2237-2240 | intervals never shrink and stay within 20 and 200 ms |
| UdpPunch.LeastTimeIs | src/common.rs:2214-2242 | the longest interval is reached after six resends; the least time any number of resends takes |
| UdpPunch.PunchUdp | src/common.rs:2210-2259 | outcome, packets and interval for every sequence of wake-ups, each clock reading apart |
| UdpPunch.OutcomeIsFirst | src/common.rs:2226-2257 | the outcome is that of the first event that is not harmless: time-out, failure, answer with or without its bytes |
| UdpPunch.WaitsWhileHarmless | src/common.rs:2226-2257 | wake-ups within the limit, and empty packets while listening, decide nothing |
| UdpPunch.PacketBound | src/common.rs:2224-2243 | at most 104 packets in any run without long delays between clock readings |
| UdpPunch.PacketBoundAlways | src/common.rs:2224-2243 | at most 105 packets however long the delays at wake-ups |
| UdpPunch.BoundIsReached | src/common.rs:2224-2243 | a run without delays that sends 104 packets |
| UdpPunch.LateTickSendsOneMore | src/common.rs:2224-2243 | a run with one late wake-up that sends 105 |
| ThrottledInterval.Throttled.PollTick | src/common.rs:1766-1781 | when a tick is let through, and from when the next may be |
| ThrottledInterval.Throttled.PollAll | src/common.rs:1761-1781 | a run of polls: the instants let through, apart from each other and not too early |
| ThrottledInterval.TicksAreApart | src/common.rs:1752-1781 | over every sequence of polls, ticks let through are at least nine tenths of the period apart |
| OnlineStates.Decode | src/client.rs:4007-4019 | the loop splits the ids by their bits, if there are enough bytes |
| OnlineStates.OnlineIsBit | src/client.rs:4011-4013 | which bit of which byte belongs to a peer |
| OnlineStates.PackedFlags | src/client.rs:4011-4013 | reading undoes packing, most significant bit first |
| OnlineStates.MergeOfSplit | src/client.rs:4008-4018 | both lists keep their order and merge back to the ids |
| Rendezvous.ComposeRoundTrip | src/ipc.rs:638-643 | the list between processes comes back as written unless it is empty, which comes back as one empty name |
| Rendezvous.GetRendezvousServer | src/common.rs:698-709 | which server is used, the others, and whether the preferred one was listed |
| Rendezvous.PortIsThere | libs/hbb_common/src/socket_client.rs:16-28 | every name ends up with a port, its own or the standard one |
| Rendezvous.WithoutConcat | src/common.rs:702-703 | the others stay in order |
| Rendezvous.WithoutOne | src/common.rs:702-703 | only the picked one is taken out |
| Rendezvous.PickedIsNotAmongOthers | src/client.rs:390 | when exactly the connection code's assertion holds |
| Rendezvous.PickedCoversList | src/common.rs:702-709 | the server picked and the others are the list |

## Left out

- Non-ASCII licences and file names: Unicode lower-casing and UTF-8 lengths are not modelled.
- The text `rustdesk-custom_serverd-` printed by src/naming.rs:21 is not a marker the parser knows; the round trip is stated for the markers it knows.
- BytesCodec: buffer capacity and memory reservation are not modelled.
- AddrMangle: flow label and scope of IPv6 addresses are not sent by the program and not modelled; subtraction on bytes that were not encoded by it wraps.
- SessionOptions: the nine switches whose new value is announced as it is share one branch; image quality, frame rate and codec fields of option messages are not modelled; other processes do not write the stored configuration; conditions on platform, version, number of displays and the cursor lock that hide or disable menu entries are taken to be met, so that more runs are covered than the menus offer.
- LoginPassword: connection tokens, which bring in a password and its source from another session, are not modelled.
- AudioBuffer.Buffer.Resize: sample rate and channel count are positive, as devices report them; a later append divides by their product.
- AudioBuffer.FramesKeptIff: sample rates below 20 Hz are left aside.
- AudioBuffer.Buffer: samples are reals; opening devices, resampling and the wait in the playback callback are not modelled.
- ClipboardSync: forced reads for a new connection and file clipboards of their own service are not modelled; writing a clipboard and reading it back is taken to return what was written.
- LanPeers.HandleReceivedPeers: the intermediate writes to disk are not modelled, only the list they write.
- TlsFallback: extraction of domain and port from a URL is a parameter.
- TerminalRelease.ReleaseRunAgrees: what is held, with the next chunk, is taken to be shorter than 2^64 less 2^20 bytes, as it must be to fit into memory.
- TerminalRelease.HalvesRunIff: first halves of more than 104 bytes, which fill the buffer by size before they do by lines, are not covered.
- Retention.CleanupOldFiles: the sum of file sizes is unbounded, and the order of directory entries is as given.
- UdpPunch.PacketBound: the two clock readings right after the first packet and the first two at any wake-up are taken to lie less than 12 ms apart in all.
- Sockets, rendezvous and relay messages, media codecs, input, printing and the user interfaces: plumbing around libraries and operating systems.
