# IPTV player core: M3U playlist parser and HLS playback session

This project models the two logic-bearing parts of the SolidJS IPTV player
component `src/App.jsx`, and proves properties of both.

1. **The extended-M3U parser `parseM3UPlaylist`** (`playlist.dfy`, with
   `js_string.dfy` and `extinf.dfy`). The text is split on `'\n'` only, with
   no trimming. Each line is then handled in turn:
   - an `#EXTINF` line that the pattern `/#EXTINF:-1 (.+?),(.+)/` accepts
     replaces the pending channel with `{ name, ...attributes }`;
   - a locator line (non-empty, not starting with `#`) stores itself as
     `url`, appends the pending channel to the output and resets it to `{}`;
   - every other line is skipped.

   The parser is an imperative method, `Playlist.ParseM3UPlaylist`. Its loop
   is proved against a fold, `Playlist.Run`. The fold is proved equal to an
   independent, segment-by-segment description, `Playlist.Segments`. The
   properties of the output are proved about these two definitions.

   The regular expression is matched by hand, as a backtracking JavaScript
   engine without flags matches it:
   - the search is unanchored, and the leftmost start wins;
   - the lazy attributes group takes at least one character, so
     `#EXTINF:-1 ,a,b` gives the attributes `,a`; it then ends at the first
     comma after that character that has no line terminator (`\n`, `\r`,
     U+2028, U+2029) between the literal and it, and that is followed by a
     character other than a line terminator; when no occurrence of the
     literal has such a comma after it the line does not match, so
     `#EXTINF:-1 a,\rb,c` is rejected;
   - the greedy name stops at the first line terminator, so a CRLF file keeps
     `\r` out of the name, while a locator line keeps its trailing `\r` in
     `url`.

   `attr.split('=')` and `value.replace(/"/g, '')` are modelled as the
   JavaScript built-ins behave. A channel is the map from its own property
   names to their values. Assigning a string to `attributes["__proto__"]` does
   not create a property, so that key is never stored.

2. **The playback session** (`session.dfy`). This covers:
   - the component-level slot `let hls = null`;
   - `playChannel` with the selection effect;
   - `initializePlayer`;
   - the `onCleanup` handler.

   The session is a class `Session.Player` whose `Select` and `Dispose`
   methods update the slot, the video element's `src`, its listener count and
   the error signal. hls.js instances are `Session.Engine` objects that count
   their `destroy()` calls. `Hls.isSupported()` and `canPlayType(...)` are
   boolean inputs to each selection.

   A ghost trace records every call the player makes. On that trace the model
   proves three things:
   - an engine is always destroyed before the next one is constructed;
   - at most one engine is live at a time;
   - no engine is constructed when hls.js is unsupported.

   When `Hls.isSupported()` gives the same answer at every selection, as it
   does within one page, every engine constructed is destroyed exactly once
   (`Session.ConstantSupportSession`). The slot is never reset to `null`, so
   the cleanup is a no-op only while no engine was ever constructed. Because
   the capability answers are inputs to each selection, the model also admits
   runs in which `Hls.isSupported()` changes between selections. In those runs
   an engine already destroyed stays in the slot and is destroyed again by each
   later selection that takes the native or unsupported branch, and again by
   the cleanup (`Session.RepeatedDestroyScenario`).

In a few places the code is more permissive than one might expect:
- A locator line without a preceding descriptor still emits a channel
  (`{url}`). So the number of channels is the number of locator lines, not at
  most the number of `#EXTINF` lines.
- Attributes are spread after `name`. An attribute keyed `name` therefore
  replaces the display name, and a channel emitted without a descriptor has
  no `name` at all. An attribute keyed `url` is always overwritten by the
  locator line.
- Attributes are split on the single character `' '`, not on whitespace.
  `a=b=c` stores `b`, not `b=c`. Every `"` is removed from the value, not only
  the surrounding pair.
- Nothing in the player stops `destroy()` from being called several times on
  the same engine; this happens only if `Hls.isSupported()` changes between
  selections.

## Model

| member | source | states |
|---|---|---|
| JsString.StartsWith | src/App.jsx:58 | `line.startsWith(p)`: `p` is a prefix of the line; the parser asks it for `'#EXTINF'` and for `'#'` (line 75) |
| JsString.Split | src/App.jsx:54 | `s.split(c)` on a one-character separator: the pieces between separators, at least one, empty ones kept; also used for `split(' ')` (line 64) and `split('=')` (line 65); its properties are the lemmas below |
| JsString.JoinSplit | src/App.jsx:54 | `split` loses nothing: joining the pieces with the separator gives back the text |
| JsString.SplitJoin | src/App.jsx:54 | splitting a join of separator-free pieces gives back exactly those pieces, so each line is one piece of `text.split('\n')` |
| JsString.SplitPiecesAvoidSeparator | src/App.jsx:54 | no piece of a split contains the separator: no line contains `'\n'`, no token contains `' '` |
| JsString.SplitAround | src/App.jsx:54 | splitting `a + sep + b` is the split of `a` followed by the split of `b` |
| JsString.SplitWhole | src/App.jsx:54 | a text without the separator is a single piece |
| JsString.RemoveAll | src/App.jsx:67 | `replace(/"/g, '')` leaves no `"` and never lengthens the value |
| JsString.RemoveAllKeepsOthers | src/App.jsx:67 | every other character is kept, as many times as it occurs |
| JsString.RemoveAllAbsent | src/App.jsx:67 | a value without `"` is left unchanged |
| Extinf.MatchExtinf | src/App.jsx:59 | `line.match(/#EXTINF:-1 (.+?),(.+)/)` reduced to its two groups; `Extinf.MatchExtinfSpec` states what it returns |
| Extinf.SearchFrom | src/App.jsx:59 | tries the start positions from left to right; `Extinf.SearchFromSpec` states that it returns the leftmost match |
| Extinf.LazySplit | src/App.jsx:59 | tries the lazy group's lengths from short to long; `Extinf.LazySplitSpec` states that it returns the shortest admissible one |
| Extinf.RunEnd | src/App.jsx:59 | the greedy `(.+)` runs to the first line terminator or the end of the line, and over no terminator |
| Extinf.LazySplitSpec | src/App.jsx:59 | the lazy `(.+?)` takes the shortest admissible length, and fails only when no comma split is possible |
| Extinf.SearchFromSpec | src/App.jsx:59 | the unanchored search returns the leftmost start where the pattern matches, and fails only when no start matches |
| Extinf.MatchExtinfSpec | src/App.jsx:59 | the match succeeds exactly when the pattern matches somewhere; both groups are then non-empty, free of line terminators, and stand in the line as `#EXTINF:-1 ` + attrs + `,` + name |
| Extinf.GroupsInPlace | src/App.jsx:59-62 | the literal, `info[1]`, the comma and `info[2]` lie side by side in the line |
| Extinf.MatchAtLineStart | src/App.jsx:58-62 | on a line that starts with the literal, the groups are the shortest comma split and the name running to the first terminator |
| Extinf.MatchWellFormed | src/App.jsx:59-62 | `#EXTINF:-1 attrs,name` with a comma-free `attrs` and no line terminators yields exactly `attrs` and `name` |
| Playlist.Entry | src/App.jsx:65-67 | what one `attr` token stores: its key and unquoted value, or nothing; `Playlist.EntryOfParts` states it in terms of the `=`-parts |
| Playlist.Attributes | src/App.jsx:63-69 | the `attributes` object after the `forEach`, as a fold over the tokens; `Playlist.AttributeKeys` and `Playlist.AttributeLastWins` state its contents |
| Playlist.DescriptorRecord | src/App.jsx:70-73 | `{ name: channelName, ...attributes }`; `Playlist.DescriptorFields` states its properties |
| Playlist.DescriptorOf | src/App.jsx:58-74 | the pending channel an `#EXTINF` line installs when the pattern accepts it, and none otherwise; `Playlist.DescriptorOfWellFormed` and `Playlist.ParseSkipsInertLine` state its effect |
| Playlist.IsLocator | src/App.jsx:75 | `line && !line.startsWith('#')`: a non-empty line not starting with `#` |
| Playlist.Step | src/App.jsx:58-79 | one iteration of the `for...of` loop on the pending channel and the output; `Playlist.StepSpec` states its effect |
| Playlist.Run | src/App.jsx:57-80 | the loop over a run of lines, as a fold of `Playlist.Step`; `Playlist.RunAppend` and `Playlist.ParseIsSegmentwise` state its properties |
| Playlist.Parse | src/App.jsx:53-82 | `parseM3UPlaylist(text)`: the loop run over `text.split('\n')` from `{}` and no channels; the lemmas below state its output |
| Playlist.EntryOfParts | src/App.jsx:65-67 | a token stores its first `=`-part as key and its second, unquoted, as value when both are non-empty; later parts are lost; a token without `=` stores nothing |
| Playlist.AttributeKeys | src/App.jsx:63-69 | a key is in `attributes` exactly when some token stores it |
| Playlist.AttributeLastWins | src/App.jsx:64-69 | a key keeps the value of the last token that stores it |
| Playlist.ParseAttributes | src/App.jsx:63-69 | the `forEach` loop builds the same `attributes` as the fold over the tokens |
| Playlist.DescriptorFields | src/App.jsx:70-73 | the pending record has `name`, taken from an attribute keyed `name` if there is one and from the display name otherwise; every other property is exactly an attribute |
| Playlist.StepSpec | src/App.jsx:58-79 | a locator appends the pending channel with `url` set to the line and resets the pending channel to `{}`; any other line leaves the output alone and at most replaces the pending channel with an accepted descriptor |
| Playlist.ParseM3UPlaylist | src/App.jsx:53-82 | the parser's loop returns exactly the fold of the line steps over `text.split('\n')` |
| Playlist.Locators | src/App.jsx:75 | the locator lines, in order, are locator lines and no more numerous than the lines |
| Playlist.ParseEmitsLocators | src/App.jsx:75-78 | exactly one channel per locator line, in text order, whose `url` is that line unchanged (non-empty, not starting with `#`) |
| Playlist.RunAppend | src/App.jsx:57-80 | the loop over two consecutive runs of lines is the loop over the first run, continued over the second |
| Playlist.ParseSkipsInertLine | src/App.jsx:58-75 | a blank line, a comment, or an `#EXTINF` line the pattern rejects can be removed without changing the output |
| Playlist.ParseDescriptorReplaces | src/App.jsx:58-74 | an accepted descriptor replaces the pending channel outright: the non-locator line just before it, an earlier unterminated descriptor included, can be removed without changing the output |
| Playlist.ParseIgnoresTrailing | src/App.jsx:57-81 | appending lines none of which is a locator never changes the output |
| Playlist.TrailingDescriptorDropped | src/App.jsx:53-82 | a last line that is not a locator, a trailing descriptor in particular, can be removed without changing the output, so it is never emitted |
| Playlist.Segments | src/App.jsx:53-82 | the reference description of the output: for each locator, the last accepted descriptor since the previous locator, or `{}`, with `url` set to the locator |
| Playlist.LastDescriptor | src/App.jsx:58-74 | the pending channel after a stretch of non-locator lines: the last accepted descriptor in it, or the one before it |
| Playlist.FirstLocator | src/App.jsx:75 | the index of the first locator line, or the length when there is none |
| Playlist.LastDescriptorCons | src/App.jsx:58-74 | a descriptor before a segment is overridden by any accepted descriptor inside the segment |
| Playlist.NoDescriptorKeepsPending | src/App.jsx:75-78 | a segment without an accepted descriptor leaves the pending record as it was, so its locator after an earlier emit yields `{url}` alone |
| Playlist.ParseIsSegmentwise | src/App.jsx:53-82 | the output is, for each locator, the last accepted descriptor since the previous locator (or `{}`), with `url` set to the locator |
| Playlist.ParseEmpty | src/App.jsx:54-81 | an empty text gives no channels |
| Playlist.BareLocatorEmits | src/App.jsx:75-78 | a text that is one locator line gives the single channel `{url}`, trailing `\r` included |
| Playlist.DescriptorOfWellFormed | src/App.jsx:58-73 | a well-formed descriptor line installs `{ name, ...attributes }` built from exactly its attributes text and name |
| Playlist.QuotedEntry | src/App.jsx:65-67 | `key="value"` stores `key` with value `value`, the quotes removed |
| Playlist.OneAttribute | src/App.jsx:64-69 | attribute text `key="value"` gives the single attribute `key: value` |
| Playlist.TwoAttributes | src/App.jsx:64-69 | attribute text `k1="v1" k2="v2"` with distinct keys gives both attributes, unquoted |
| Playlist.TwoChannelLines | src/App.jsx:54 | a two-entry playlist ending in a newline splits into its four lines and one empty last line |
| Playlist.TwoChannelRun | src/App.jsx:57-80 | descriptor, locator, descriptor, locator, blank line gives the two records, each with its locator as `url` |
| Playlist.TwoChannels | src/App.jsx:53-82 | a text of two well-formed descriptor/locator pairs gives two channels in text order, each with its name, its attributes and its `url` |
| Session.Live | src/App.jsx:89-93 | the engines constructed and not destroyed since, after a trace of calls |
| Session.NoOverlap | src/App.jsx:89-93 | every construction happens while no engine is live |
| Session.NoOverlapExtend | src/App.jsx:89-93 | a trace stays free of overlap when the next call constructs nothing, or constructs while no engine is live |
| Session.QuietCalls | src/App.jsx:94-105 | source, media, listener, `src` and error calls leave the live engines alone and cannot create overlap |
| Session.AtMostOneLive | src/App.jsx:88-98 | without overlap, at most one engine is live at any time |
| Session.Engine.constructor | src/App.jsx:93 | `new Hls()` starts unattached, without a source, never destroyed |
| Session.Engine.LoadSource | src/App.jsx:94 | the engine's source becomes the URL |
| Session.Engine.AttachMedia | src/App.jsx:95 | the engine is attached to the video element |
| Session.Engine.OnManifestParsed | src/App.jsx:96-98 | playback is registered to start when the manifest is parsed |
| Session.Engine.Destroy | src/App.jsx:90 | each call counts once more; nothing prevents a second call |
| Session.Player.constructor | src/App.jsx:13 | the slot starts `null`, nothing is selected, played or reported, and the trace is empty |
| Session.Released | src/App.jsx:89-91 | the `destroy()` call `if (hls) hls.destroy()` records: one on the slot's engine, or none when the slot is `null` |
| Session.Player.ReleaseEngine | src/App.jsx:89-91 | the engine in the slot, if any, is destroyed and stays in the slot; afterwards no engine is live; the destroyed engine keeps its source, attachment and listener |
| Session.Player.StartEngine | src/App.jsx:92-98 | a fresh engine takes the slot, loads the selected URL, attaches to the video and registers autoplay, constructed only while no engine is live |
| Session.Player.PlayNatively | src/App.jsx:99-103 | the video's `src` becomes the selected URL and one `loadedmetadata` listener is added; the slot is untouched |
| Session.Player.ReportUnsupported | src/App.jsx:104-105 | the error signal becomes `This browser does not support HLS playback.`; the slot is untouched |
| Session.Player.InitializePlayer | src/App.jsx:88-107 | destroy the slot's engine first; then construct a new engine only when hls.js is supported and a URL is selected, else play natively when possible, else report the error; the old engine's destroy precedes any construction in the trace; the destroyed engine keeps its source, attachment and listener |
| Session.Player.Select | src/App.jsx:16-19 | a non-empty URL runs the three-way initialisation for that URL; the empty URL changes nothing but the selection: slot, engine, video element, error signal and trace stay as they were |
| Session.Destroys | src/App.jsx:90 | the number of `destroy()` calls a trace records on one engine |
| Session.BalancedQuiet | src/App.jsx:94-105 | source, media, listener, `src` and error calls add no `destroy()` call and construct nothing |
| Session.BalancedRelease | src/App.jsx:89-91 | destroying the last engine, not yet destroyed, brings its count of `destroy()` calls to one |
| Session.BalancedConstruct | src/App.jsx:93-98 | once every engine has been destroyed once, constructing and starting the next engine adds an engine with no `destroy()` call yet |
| Session.ConstantSupportSession | src/App.jsx:89-93 | with the same `Hls.isSupported()` answer at every selection, selecting a series of channels and cleaning up destroys the `i`-th constructed engine exactly once, both as an object and in the trace; the trace names no other engine, and none is left live |
| Session.Player.Dispose | src/App.jsx:22-26 | the cleanup destroys the slot's engine once more; it leaves the trace unchanged exactly when no engine was ever constructed; afterwards no engine is live; the destroyed engine keeps its source, attachment and listener |

## Left out

- `fetchPlaylist` (src/App.jsx:28-51): network I/O and UI-state setters around the parser call, with nothing to prove beyond their order.
- The JSX rendering and the login form (src/App.jsx:109 onwards): UI only.
- hls.js internals and the `<video>` element: their calls are recorded as abstract engine operations and trace entries. Asynchronous manifest loading and `play()` are not modelled.
- The capability checks `Hls.isSupported()` and `canPlayType(...)` are inputs to each selection. This admits more runs than a real browser produces, where both answers stay fixed for the page. The repeated destroy of a spent engine appears only in runs where `Hls.isSupported()` changes between selections.
- Solid's scheduling: `createEffect` and `onCleanup` become explicit `Select` and `Dispose` calls that run synchronously.
- Session.Player.Select: runs `initializePlayer` even when the URL equals the current selection. Solid's skip for an unchanged signal value lives in the library, not in this file.
- `videoRef` is taken to be mounted whenever a selection runs. The `TypeError` on an unmounted ref is not modelled.
- JavaScript strings are UTF-16 code units, while Dafny's `char` is a Unicode scalar value. The model treats each character as one unit, so a `.` meeting an astral character is not modelled unit by unit.
- The order of a channel object's properties is not modelled, since a channel is a map.
- Object keys are modelled as plain own properties, except `__proto__`. Other inherited names, such as `constructor`, behave as own properties when assigned, as they do in JavaScript.
- Only the one regular expression the parser uses is modelled, not a general regex engine.
