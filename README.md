# MAGfreeTV portal — a Dafny model

MAGfreeTV is a small Stalker-style middleware portal for MAG set-top boxes,
deployed as serverless functions. This project models its three request
handlers and proves what they promise:

- `onRequest` (`functions/c.js`) answers a set-top box. It selects the
  device MAC from the `X-MAC` header, the `MAC` header or the `mac` query
  parameter. It normalises the MAC to its storage key and checks the key
  against the MAC registry, failing open. It then dispatches on `action`:
  `handshake`, `get_profile`, `get_localization`,
  `get_all_channels`/`get_ordered_list`, `create_link`, and a fallback for
  unknown actions.
- `parseM3U` (`functions/c.js`) turns an extended-M3U playlist into channel
  records. A `#EXTINF:` line opens a pending entry with the next id. The next
  stream line completes that entry. An entry that is superseded, or still
  pending at the end, is dropped.
- `onRequestOptions` (`functions/c.js`) answers a CORS preflight.
- `onRequestPost` (`register.js`) registers a device. It validates the MAC
  against `^([0-9A-Fa-f]{2}:){5}([0-9A-Fa-f]{2})$` and stores a record under
  the upper-cased MAC without colons.

Modules, in dependency order:

- `Wrappers` (`wrappers.dfy`): `Option`.
- `Text` (`text.dfy`): the JavaScript string primitives the handlers use.
  These are `trim` over the exact ECMAScript whitespace set, `toUpperCase`,
  `split('\n')`, `replace(/:/g, '')` and `Number#toString`.
- `Playlist` (`playlist.dfy`): the parser.
  - `Run` is a left fold of `Step` over the lines and serves as the
    specification.
  - `ParseM3U` is the source's loop, proved to compute `Run`.
  - The lemmas establish what every emitted record satisfies, where each
    record comes from, and which entries are dropped.
- `DeviceStore` (`device_store.dfy`): the storage key `MacKey` and the
  registry binding `MAC_REGISTRY`. The binding is the class `MacRegistry`,
  a map updated in place by `Put`.
- `Portal` (`portal.dfy`): `Respond` specifies one request to `onRequest`.
  The method `OnRequest` is the handler: it runs `ParseM3U` on a fetched
  playlist, and it is proved equal to `Respond`.
- `Registration` (`registration.dfy`): `Outcome` and `RegistryAfter`
  specify one request to `onRequestPost`. The method `OnRequestPost` is the
  handler, which updates a `MacRegistry`. It is proved to compute both.

Where the model had to choose, it follows the code:

- The channel name is what `/,(.+)$/` captures. The regular expression
  matches at the FIRST comma whose remainder is non-empty and lies on one
  line, not at the last comma on the line. So a name containing a comma is
  kept whole, and a comma inside an attribute value cuts the name there
  (`Playlist.NameAfterFirstComma`).
- JavaScript truthiness is modelled as written.
  - An empty header, parameter or `cmd` counts as absent.
  - A MAC whose key is empty (for example `:`) skips the registry check and
    is admitted (`Portal.ColonsOnlyMacAdmitted`).
- The `supported_actions` list sent with an unknown action names four
  actions. Six are handled (`Portal.SupportedActionsIncomplete`).

## Model

| member | source | states |
|---|---|---|
| Text.Trim | functions/c.js:168 | `line.trim()` is no longer than the line, and a non-empty result starts and ends with a non-whitespace character |
| Text.TrimRemovesOnlyWhitespace | functions/c.js:168 | the trimmed line is the contiguous piece after the leading whitespace, and everything before and after it is whitespace |
| Text.TrimEmptyIffWhitespace | functions/c.js:168 | trimming gives the empty string exactly when every character is whitespace (a blank line) |
| Text.TrimIdempotent | functions/c.js:168 | trimming a trimmed line changes nothing |
| Text.SplitLines | functions/c.js:163 | `split('\n')` always gives at least one piece, and no piece contains a newline |
| Text.JoinSplit | functions/c.js:163 | joining the pieces of a text with newlines gives the text back |
| Text.SplitJoin | functions/c.js:163 | splitting newline-free lines joined with newlines gives the lines back |
| Text.UpperChar | functions/c.js:20 | `toUpperCase` on one character maps a-z 32 code points down and leaves every other character alone, so no lower-case ASCII letter remains |
| Text.ToUpper | functions/c.js:20 | `toUpperCase` keeps the length and maps every character by `UpperChar` |
| Text.ToUpperIdempotent | functions/c.js:20 | upper-casing twice is upper-casing once |
| Text.RemoveColons | functions/c.js:20 | `replace(/:/g, '')` leaves no colon, is no longer than its input, and adds no character |
| Text.RemoveColonsKeepsOthers | functions/c.js:20 | `replace(/:/g, '')` keeps every character other than a colon, with its multiplicity |
| Text.RemoveColonsAppend | functions/c.js:20 | removing colons from two pieces one after the other gives the colon-free text of the whole, so the kept characters stay in their order |
| Text.UpperCommutesWithRemoveColons | functions/c.js:20 | upper-casing and removing colons can be done in either order |
| Text.NatToString | functions/c.js:180 | `id.toString()` is a non-empty string of decimal digits with a leading `0` only for zero |
| Text.DecimalValueOfNatToString | functions/c.js:180 | the decimal text of `id` reads back as `id` |
| Text.NatToStringInjective | functions/c.js:180 | different ids have different decimal texts |
| Playlist.Step | functions/c.js:168-199 | defines one iteration of the loop: a trimmed `#EXTINF:` line opens a pending record with the next id, a stream line completes a pending record, and any other line changes nothing; its properties are the lemmas below |
| Playlist.Run | functions/c.js:162-200 | defines the parser state after a sequence of lines as the left fold of `Step` from no records, nothing pending and id 1 |
| Playlist.Parse | functions/c.js:161-203 | defines the output as the records of `Run` over the pieces of `split('\n')`; `ParseM3U` is proved to compute it |
| Playlist.ChannelName | functions/c.js:172-173 | defines the name: the trimmed capture of `/,(.+)$/` at its leftmost match, otherwise `Channel <id>` (stated by `NameAfterFirstComma`, `NameWithoutComma`, `ChannelNameNonEmpty`) |
| Playlist.ChannelLogo | functions/c.js:176-177 | defines the logo: the capture of `/tvg-logo="([^"]+)"/` at its leftmost match, otherwise `''` (stated by `LogoFound`) |
| Playlist.NewChannel | functions/c.js:179-191 | defines the record a metadata line opens: id text, name, number, empty `cmd`, logo and the six fixed protocol values |
| Playlist.ExtInfIsNotStream | functions/c.js:170-194 | a `#EXTINF:` line is never taken as a stream line |
| Playlist.FindNameMatch | functions/c.js:172 | the position found is where `/,(.+)$/` matches, and no earlier position from the start matches |
| Playlist.ChannelNameNonEmpty | functions/c.js:172-173 | on a trimmed line the channel name is never empty |
| Playlist.NameAfterFirstComma | functions/c.js:172-173 | the name is the trimmed text after the first comma when the regex matches there |
| Playlist.NameWithoutComma | functions/c.js:173 | a metadata line without a comma is named `Channel <id>` |
| Playlist.FirstQuote | functions/c.js:176 | the index found holds the first double quote; without one, there is no quote at all |
| Playlist.FindLogoMatch | functions/c.js:176 | the position found is where `/tvg-logo="([^"]+)"/` matches, and no earlier position from the start matches |
| Playlist.LogoFound | functions/c.js:176-177 | the logo is empty exactly when the regex matches nowhere; a found logo holds no double quote |
| Playlist.ParseM3U | functions/c.js:161-203 | the loop returns `Parse(text)` (the fold of `Step` over the lines), with every record well formed and the numbers strictly increasing; it has no precondition and cannot fail |
| Playlist.StepValid | functions/c.js:170-199 | every line keeps the parser invariant: output well formed, numbers increasing and below the next id, the pending entry numbered `nextId - 1` |
| Playlist.RunValid | functions/c.js:162-200 | the invariant holds after any sequence of lines |
| Playlist.IdsDecode | functions/c.js:180-182 | in well-formed records the string `id` reads back as the integer `number` |
| Playlist.ParseWellFormed | functions/c.js:179-198 | every parsed record has `number >= 1`, `id` the decimal text of `number`, a non-empty name, and a trimmed, non-empty `cmd` that does not start with `#`; numbers strictly increase |
| Playlist.RunCounts | functions/c.js:165-199 | the next id is one past the number of metadata lines; the records plus the pending entry never outnumber the metadata lines; the records never outnumber the stream lines |
| Playlist.PendingIndexSpec | functions/c.js:164-198 | `PendingIndex` finds exactly the metadata line still pending: one followed only by blank or comment lines |
| Playlist.RunCurrent | functions/c.js:179-198 | the parser's pending slot holds the record opened by the pending metadata line, with the id counting the metadata lines up to it |
| Playlist.RunSound | functions/c.js:179-197 | every record comes from a metadata line and the stream line that completes it: `cmd` is that stream line trimmed, name and logo come from the metadata line, and the id counts the metadata lines up to it |
| Playlist.RunComplete | functions/c.js:167-199 | every metadata line followed, after only blank or comment lines, by a stream line gives its record in the output |
| Playlist.NeutralLineIgnored | functions/c.js:168-199 | a blank line, or a `#` line other than `#EXTINF:`, leaves the parser state unchanged |
| Playlist.NeutralLinesIgnored | functions/c.js:168-199 | so does any run of such lines |
| Playlist.NoStreamNoRecord | functions/c.js:179-202 | lines without a stream line add no record, so an entry still pending at the end is dropped without error |
| Playlist.SupersededPending | functions/c.js:179-193 | a second metadata line before any stream line replaces the pending entry and consumes a second id |
| Playlist.Superseded | functions/c.js:179-198 | the next stream line then completes only the second entry, with an id that skips the discarded one |
| Playlist.CompletesPending | functions/c.js:194-198 | a stream line after a pending entry emits that entry, with the trimmed stream line as its `cmd`, after the records already emitted |
| Playlist.ParseEmpty | functions/c.js:161-203 | the empty text gives no record and no error |
| Playlist.PairedEntries | functions/c.js:167-200 | N metadata/stream line pairs give exactly N records, numbered 1 to N in order, with nothing left pending |
| Playlist.ParsePairedText | functions/c.js:161-203 | the same for the playlist text that joins those lines with newlines |
| DeviceStore.MacKey | functions/c.js:19-21 | the key is no longer than the MAC and contains no colon and no lower-case letter |
| DeviceStore.MacKeyKeepsOthers | functions/c.js:20 | the key keeps every character of the upper-cased MAC except its colons, with its multiplicity; a MAC without colons has its upper-cased form as key |
| DeviceStore.MacKeyIdempotent | register.js:21 | normalising a key again changes nothing |
| DeviceStore.MacKeyIgnoresCase | register.js:21 | a MAC and its upper-cased form have the same key |
| DeviceStore.MacRegistry.Get | functions/c.js:26-27 | the lookup finds a record exactly when the key is stored, and finds that record |
| DeviceStore.MacRegistry.Put | register.js:25-28 | `put` stores the record under the key and changes no other entry |
| Portal.SelectMac | functions/c.js:9-11 | the MAC is the first non-empty one of `X-MAC`, `MAC` and `?mac`, each branch pinned; it is absent exactly when all three are absent or empty |
| Portal.ActionOf | functions/c.js:14 | the action is never empty: a missing or empty `action` becomes `handshake` |
| Portal.ActionChosen | functions/c.js:14 | a non-empty `action` is dispatched as given, and a missing or empty one as `handshake` |
| Portal.IsRegistered | functions/c.js:23-28 | defines the fail-open registry check: without a registry, a MAC or a non-empty key the device counts as registered, otherwise exactly when its key is stored (stated by `RefusedOnlyWhenUnknown`) |
| Portal.HandshakeFor | functions/c.js:34-53 | defines the handshake object from the MAC, the registration answer and the random strings (stated by `HandshakeReply`) |
| Portal.ProfileFor | functions/c.js:56-79 | defines the profile object from the MAC and the two clock readings (stated by `ProfileReply`) |
| Portal.ListingOf | functions/c.js:99-108 | defines the listing object of a parsed channel list (stated by `ChannelListing`) |
| Portal.PagesFor | functions/c.js:106 | `Math.ceil(n / 14)`: the fewest pages of 14 items that hold n items |
| Portal.Seconds | functions/c.js:62 | `Math.floor(ms / 1000)`: the whole seconds of a clock reading, rounded down |
| Portal.Respond | functions/c.js:33-157 | every reply has status 200, the four JSON/CORS headers, and a body |
| Portal.OnRequest | functions/c.js:4-158 | the handler, which looks the key up with the registry's `Get` and runs the parser method, computes exactly `Respond` on the registry's contents |
| Portal.Preflight | functions/c.js:216-225 | the preflight reply is 204 with no body, and its headers are exactly the CORS headers of a JSON reply: every one of them, and nothing else (no `Content-Type`) |
| Portal.DefaultActionIsHandshake | functions/c.js:14 | a request without an action, or with an empty one, is answered exactly as a handshake |
| Portal.HandshakeReply | functions/c.js:34-54 | `auth` is `'1'` and `not_valid` is `'false'` exactly when the device counts as registered, and `'0'` and `'true'` otherwise; `mac` and `metrics.mac` echo the device MAC or `00:1A:79:00:00:00` |
| Portal.RefusedOnlyWhenUnknown | functions/c.js:23-28 | a device is refused exactly when the registry is bound, the MAC is present, its key is non-empty, and the key is not stored |
| Portal.ColonsOnlyMacAdmitted | functions/c.js:18-28 | every MAC made only of colons, of any length, has an empty key and is admitted whatever the registry holds |
| Portal.RegistrationIgnoresFormatting | functions/c.js:19-28 | a MAC, its upper-cased form and its key get the same registration answer |
| Portal.ChannelListing | functions/c.js:91-108 | a listing with a fetched playlist serves the whole parsed list, well formed and in id order, with `total_items` its length, 14 per page, page 1 selected, and `all_pages` equal to `PagesFor` of the length, the ceiling of length/14 (0 exactly for an empty list) |
| Portal.ListingServed | functions/c.js:91-108 | a listing request with a fetched playlist is answered with the listing of the parsed text |
| Portal.ListingPages | functions/c.js:99-108 | the listing of any channel list holds the list itself, its length, 14 per page, page 1, and the least number of pages that hold it |
| Portal.PageCountExamples | functions/c.js:106 | 0 items need 0 pages, 1 and 14 need 1, 15 need 2, 30 need 3 |
| Portal.ListingFetchFails | functions/c.js:109-117 | a failed fetch gives empty `data`, `total_items` 0 and the error `Failed to load channels` |
| Portal.OrderedListIsAllChannels | functions/c.js:91-92 | `get_ordered_list` is answered exactly as `get_all_channels` |
| Portal.CreateLinkReply | functions/c.js:120-135 | `create_link` echoes a non-empty `cmd` with id `'1'`, load 100 and priority 0, and otherwise answers `No channel specified` |
| Portal.ProfileReply | functions/c.js:56-80 | `created` and `last_change_date` are the clock readings in whole seconds, rounded down; the profile echoes the device MAC or the default one |
| Portal.UnknownActionReply | functions/c.js:137-143 | exactly the actions outside the six handled ones get `Unknown action` with the four listed actions |
| Portal.SupportedActionsIncomplete | functions/c.js:141 | the listed actions are all handled, but `get_localization` and `get_ordered_list` are handled and not listed |
| Registration.ValidMac | register.js:9-10 | defines the anchored pattern `^([0-9A-Fa-f]{2}:){5}([0-9A-Fa-f]{2})$` as five `hh:` groups and a final pair (stated by `ValidMacByPosition`) |
| Registration.GroupsByPosition | register.js:9 | `n` groups `hh:` and a final pair are exactly the strings of length 3n+2 with a colon at every third place and hex digits elsewhere |
| Registration.ValidMacByPosition | register.js:9-10 | a MAC is accepted exactly when it is 17 characters with a colon at every third place and hex digits elsewhere |
| Registration.AcceptedUpperExample | register.js:9-10 | `AA:BB:CC:DD:EE:FF` is accepted |
| Registration.AcceptedLowerExample | register.js:9-10 | `aa:bb:cc:dd:ee:ff` is accepted |
| Registration.RefusedExamples | register.js:9-10 | `AABBCCDDEEFF` and `GG:HH:II:JJ:KK:LL` are refused |
| Registration.ValidMacKey | register.js:21 | the key of an accepted MAC is 12 upper-case hex digits, and putting the colons back gives the MAC upper-cased |
| Registration.KeyFormatRoundTrip | register.js:21 | every 12-digit upper-case hex key is the key of its colon form, and that colon form is accepted |
| Registration.AcceptedMac | register.js:10 | the registered MAC is a JSON string the pattern accepts; when there is none, no accepted string was sent |
| Registration.Outcome | register.js:4-51 | defines the reply to one request: 400 `Invalid request` for a body that is not JSON or is `null`, 400 `Invalid MAC address format` for a falsy or refused `mac`, 400 `Invalid request` for a non-string `mac` that passes, otherwise 200 with the MAC upper-cased (stated by `SuccessIffAccepted`, `FailureReasons`) |
| Registration.RegistryAfter | register.js:24-29 | defines the registry after one request: an accepted MAC's key set to its record, otherwise unchanged (stated by `RegistryChange`) |
| Registration.OnRequestPost | register.js:1-52 | the handler replies `Outcome(body)`, and a bound registry ends as `RegistryAfter` of its old entries |
| Registration.SuccessIffAccepted | register.js:10-41 | a request succeeds (200) exactly when `mac` is a string the pattern accepts; the reply is then `Success` with the MAC upper-cased, itself accepted; every other reply is a 400 |
| Registration.FailureReasons | register.js:10-50 | a refused request gets 400 with `Invalid MAC address format`, or with `Invalid request` exactly when the body is not JSON, is `null`, or has a non-string `mac` that passes the pattern |
| Registration.RegistryChange | register.js:24-29 | a refused request leaves the registry unchanged; an accepted one sets only the 12-digit key of the MAC, to the upper-cased MAC and the time |
| Registration.RegistrationIdempotent | register.js:24-29 | repeating a request leaves the registry as one request did |
| Registration.SameDeviceAnyCase | register.js:21-28 | any string that upper-cases to an accepted MAC is accepted too, and registering it after the MAC overwrites the same single entry, as if only it had been registered |
| Registration.SameLettersAccepted | register.js:9-10 | the pattern test ignores letter case: a string with the same upper-cased form as an accepted MAC is accepted |
| Registration.UpperCaseAccepted | register.js:21-26 | the upper-cased form of an accepted MAC is accepted, has the same key, and is its own upper case |
| Registration.AcceptedRegistry | register.js:24-29 | an accepted MAC stores its upper-cased form and the time under its key |
| Registration.RegisteredDeviceAuthorized | register.js:21-28 | after a successful registration, a handshake from that device is authorised, whatever letter case and header it uses |

## Left out

- The playlist fetch and `m3uResponse.text()` (functions/c.js:95-96) are a network call. They are the input `fetched`, and `None` stands for any exception they throw.
- `generateToken` and `generateRandomString` (functions/c.js:206-213) draw from `Math.random`. Their strings are the input `Entropy`.
- `Date.now()` and `new Date().toISOString()` read the clock. Their values are inputs: two readings for a profile, one timestamp text for a registration.
- The registry is modelled as an in-memory map. Its backend is a remote key-value store that answers asynchronously.
  - A `put` that fails would throw and give `Invalid request`. The model has no such failure.
  - A `get` that fails (functions/c.js:26) is outside any `try`, so `onRequest` would fail instead of replying. The model's lookup always answers, so `Portal.Respond` always replies 200.
  - The model stores the record itself, not its JSON text.
- `JSON.stringify`, `new Response` and `request.json()` are left out.
  - Replies are values (`Reply`, `PostReply`).
  - A request body is already classified (`Body`, `MacValue`).
  - How JavaScript converts a non-string `mac` to text for the pattern test is taken as given (`NonText.rendered`).
- The `type` query parameter (functions/c.js:15) is read and never used, so it is not modelled.
- Text.UpperChar: maps only the ASCII letters a-z. JavaScript's `toUpperCase` also maps other Unicode letters and can lengthen a string (`ß` becomes `SS`).
- Text.SplitLines and the other string functions work on Unicode scalar values, not on UTF-16 code units.
- Text.NatToString: ids are unbounded naturals. In JavaScript `id++` stops increasing at 2^53 (2^53 + 1 equals 2^53), so ids would repeat after that many metadata lines; no playlist reaches it.
