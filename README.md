# Peripleo front-end core in Dafny

This project models the parts of the Peripleo map front-end whose behaviour can be stated exactly:

- **The URL bar** (`urlBar.js`) mirrors the map and search state in the URL fragment.
  - It keeps a mutable segment object.
  - It reads a `#k=v&k=v` fragment into that object (`parseURLHash`), with special handling for `bbox`, `from` and `to`.
  - Each UI event edits one key of the object.
  - It writes the object back as `k=v&k=v`, either at once (`updateNow`) or through a two-flag debounce (`busy`/`updatePending`) driven by a timer.
- **The search panel** (`searchPanel.js`) is a two-state machine: search and sub-search.
  - It caches the result total.
  - Its visible state is reduced to a few values: the list-all button, the order of the filter-panel and selection-info containers, the totals label, and the search icon.
  - Its submit rule turns the trimmed input into two events.
- **Two page helpers** (`page-utils.js`):
  - `formatGazetteerURI` shortens a gazetteer URI to `label:identifier`;
  - `licenseIcon` renders a licence URL as an HTML anchor.

## Layout

| file | module | contents |
|---|---|---|
| `optional.dfy` | `Optional` | `Option` |
| `js_strings.dfy` | `JsStrings` | `trim`, `split`, `join`, `indexOf` and `substr` on `string` |
| `js_values.dfy` | `JsValues` | primitive values, truthiness, ToString, `parseInt` and `encodeURIComponent` |
| `properties.dfy` | `Properties` | the own properties of a plain object, in enumeration order, with assignment and `delete` |
| `url_codec.dfy` | `UrlCodec` | `parseBBox`, the fragment parser as a function of the segment object, the serialiser, and the round trip |
| `debounce.dfy` | `Debounce` | the debounce flags as a value and the write counts they lead to |
| `url_bar.dfy` | `UrlBar` | the class `URLBar` and the key-scoped edits of its handlers |
| `search_panel.dfy` | `SearchPanel` | the panel's transitions as functions, and the class `SearchPanel` proved against them |
| `page_utils.dfy` | `PageUtils` | `formatGazetteerURI` with a rule-table reference, and `licenseIcon` with a licence classification |

## Modelling choices

- **The segment object** is a sequence of key/value pairs in its enumeration order (`Properties.Props`).
  - Keys that are array indices come first, in ascending order.
  - The other keys follow in creation order.
  - Assigning to `__proto__` creates no own property.
  - `Properties.Canonical` states that keys are distinct, that array indices come first and ascending, and that there is no own `__proto__`. Every operation is proved to keep it. Creation order is a matter of history, not of a single state: `Properties.AssignAppendsNewKey` shows that a new key goes last.
- **Values** are JavaScript primitives (`JsValues.JsValue`). A piece without `=` stores `undefined`, the `from`/`to` coercion stores a number or `NaN`, and a diff may carry any primitive. Numbers are integers here.
- **`window.location.hash`** is the append-only field `hashes` of `URLBar`.
- **The timer callback** is the method `TimerFires`, which the environment calls. `timers` counts the timers armed and not yet fired.
- **The search panel** reads its input as a parameter of `UpdateIcon`, `Submit` and `Keypress`. The events it fires are appended to `fired`.
- **The debounced write.**
  - `updateURLField` does not write at once. It arms the timer, and the write happens only when the timer fires (`Debounce.Fire`, `UrlBar.URLBar.TimerFires`).
  - A burst of two or more requests from idle therefore makes two writes: one when the timer fires, then one trailing write a window later (`Debounce.BurstFromIdle`).

## Model

| member | source | states |
|---|---|---|
| JsStrings.TrimStartSpec | app/assets/javascripts/peripleo-ui/searchPanel.js:62 | `trim` drops exactly the leading white space: what is dropped is all white space, and what is left starts with a character that is not white space |
| JsStrings.Trim | app/assets/javascripts/peripleo-ui/searchPanel.js:62 | `s.trim()`, defined as dropping leading then trailing white space; what it keeps is stated by `JsStrings.TrimStartSpec`, `JsStrings.TrimEndSpec`, `JsStrings.TrimEmptyIff` and `JsStrings.TrimIsInnerSlice` |
| JsStrings.TrimEndSpec | app/assets/javascripts/peripleo-ui/searchPanel.js:62 | the same for trailing white space |
| JsStrings.TrimEmptyIff | app/assets/javascripts/peripleo-ui/searchPanel.js:62-64 | the trimmed input is empty exactly when the input is all white space |
| JsStrings.TrimIsInnerSlice | app/assets/javascripts/peripleo-ui/searchPanel.js:113 | a non-empty trimmed input is a slice of the input that starts and ends with a character that is not white space |
| JsStrings.Split | app/assets/javascripts/peripleo-ui/urlBar.js:24 | `split` yields at least one piece, and no piece contains the separator |
| JsStrings.SplitNoSeparator | app/assets/javascripts/peripleo-ui/urlBar.js:29-31 | text without the separator splits into itself alone |
| JsStrings.SplitAtFirst | app/assets/javascripts/peripleo-ui/urlBar.js:29-31 | splitting `a + c + b`, where `a` has no separator `c`, gives `a` followed by the pieces of `b` |
| JsStrings.SplitAtLast | app/assets/javascripts/peripleo-ui/urlBar.js:24 | splitting `a + c + b`, where `b` has no separator `c`, gives the pieces of `a` followed by `b` |
| JsStrings.JoinSplit | app/assets/javascripts/peripleo-ui/urlBar.js:24 | joining the pieces of a split gives the text back |
| JsStrings.SplitJoin | app/assets/javascripts/peripleo-ui/urlBar.js:72 | splitting a join of separator-free pieces gives the pieces back |
| JsStrings.IndexFrom | app/assets/javascripts/peripleo-ui/urlBar.js:24 | `indexOf` returns -1 or a position at or after the start where the text occurs |
| JsStrings.IndexFromFirst | app/assets/javascripts/page-utils.js:26 | `indexOf` returns the first such position: it is at most any position where the text occurs |
| JsStrings.ContainsIff | app/assets/javascripts/page-utils.js:26 | `indexOf(sub) > -1` holds whenever `sub` occurs somewhere |
| JsStrings.IndexOfZeroIffPrefix | app/assets/javascripts/page-utils.js:14 | `indexOf(p) == 0` holds exactly when the text starts with `p` |
| JsValues.NatToString | app/assets/javascripts/peripleo-ui/urlBar.js:69 | a numeral is a non-empty run of decimal digits with no leading zero |
| JsValues.DigitPrefix | app/assets/javascripts/peripleo-ui/urlBar.js:41 | `parseInt` reads the longest run of digits at the front of the text |
| JsValues.ParseInt | app/assets/javascripts/peripleo-ui/urlBar.js:41 | `parseInt` yields a number or `NaN` |
| JsValues.NatToStringValue | app/assets/javascripts/peripleo-ui/urlBar.js:41 | reading a numeral back gives the number it was written from |
| JsValues.DigitPrefixOfDigits | app/assets/javascripts/peripleo-ui/urlBar.js:41 | a run of digits is read whole |
| JsValues.ParseIntOfNumberToString | app/assets/javascripts/peripleo-ui/urlBar.js:41 | `parseInt(String(n))` is `n` for every integer, negative ones included |
| JsValues.NumberToStringNonEmpty | app/assets/javascripts/peripleo-ui/urlBar.js:40 | a written number is a non-empty string, and so passes the `if (segments.from)` test |
| JsValues.Utf8Bytes | app/assets/javascripts/peripleo-ui/urlBar.js:121 | a code point encodes to one to four bytes |
| JsValues.HexDigitUpper | app/assets/javascripts/peripleo-ui/urlBar.js:121 | escape digits are unreserved characters |
| JsValues.PercentEncode | app/assets/javascripts/peripleo-ui/urlBar.js:121 | each byte becomes three characters: `%` and two unreserved digits |
| JsValues.EncodeURIComponent | app/assets/javascripts/peripleo-ui/urlBar.js:121 | the encoding is at least as long as its input and holds only unreserved characters and `%` |
| JsValues.EncodeIdentityIff | app/assets/javascripts/peripleo-ui/urlBar.js:121 | encoding leaves the text unchanged exactly when it is all unreserved characters |
| JsValues.EncodedIsFragmentSafe | app/assets/javascripts/peripleo-ui/urlBar.js:121 | an encoded identifier holds no `&`, `=` or `#` |
| JsValues.EncodeAppend | app/assets/javascripts/peripleo-ui/urlBar.js:121 | encoding a concatenation is the concatenation of the encodings |
| JsValues.EncodeSlash | app/assets/javascripts/peripleo-ui/urlBar.js:121 | `/` is written `%2F` |
| JsValues.EncodeAroundSlash | app/assets/javascripts/peripleo-ui/urlBar.js:121 | encoding `a/b` is the encoding of `a`, then `%2F`, then the encoding of `b` |
| JsValues.EncodeSlashSeparated | app/assets/javascripts/peripleo-ui/urlBar.js:121 | an identifier `a/b` of unreserved characters is written `a%2Fb` |
| Properties.Lookup | app/assets/javascripts/peripleo-ui/urlBar.js:36 | a key is absent exactly when no property has it |
| Properties.Assign | app/assets/javascripts/peripleo-ui/urlBar.js:36 | `o[k] = v`: replace in place, insert an array index in ascending position, or append; its effect is stated by `Properties.LookupAfterAssign`, `Properties.AssignKeepsCanonical` and `Properties.AssignTouchesOnlyItsKey` |
| Properties.Delete | app/assets/javascripts/peripleo-ui/urlBar.js:62 | `delete o[k]` keeps exactly the properties whose key is not `k` |
| Properties.LookupAfterAssign | app/assets/javascripts/peripleo-ui/urlBar.js:36 | after `o[k] = v`, `o[k]` is `v` (unless `k` is `__proto__`), and every other key reads as before |
| Properties.LookupAfterDelete | app/assets/javascripts/peripleo-ui/urlBar.js:62 | after `delete o[k]`, `k` is absent and every other key reads as before |
| Properties.LookupAfterReplace | app/assets/javascripts/peripleo-ui/urlBar.js:36 | overwriting an existing key changes only that key's value |
| Properties.LookupAfterInsertIndex | app/assets/javascripts/peripleo-ui/urlBar.js:36 | creating an array-index key adds only that key |
| Properties.LookupAfterAppend | app/assets/javascripts/peripleo-ui/urlBar.js:36 | creating any other key adds only that key |
| Properties.AssignKeepsCanonical | app/assets/javascripts/peripleo-ui/urlBar.js:36 | assignment keeps the property list one an object can have (distinct keys, array indices first and ascending, no own `__proto__`) |
| Properties.DeleteKeepsCanonical | app/assets/javascripts/peripleo-ui/urlBar.js:62 | deletion keeps the property list one an object can have |
| Properties.ReplaceKeepsCanonical | app/assets/javascripts/peripleo-ui/urlBar.js:36 | overwriting keeps the list canonical and introduces no new key |
| Properties.InsertIndexKeepsCanonical | app/assets/javascripts/peripleo-ui/urlBar.js:36 | inserting a new array index keeps the list canonical and adds exactly that entry |
| Properties.AppendKeepsCanonical | app/assets/javascripts/peripleo-ui/urlBar.js:36 | appending a new key that is not an array index keeps the list canonical |
| Properties.CanonicalSnoc | app/assets/javascripts/peripleo-ui/urlBar.js:36 | a list extended at its end is canonical exactly when the new key may follow every key already there |
| Properties.AssignAppendsNewKey | app/assets/javascripts/peripleo-ui/urlBar.js:36 | a new key that may stand last is created at the end |
| Properties.InsertIndexAtEnd | app/assets/javascripts/peripleo-ui/urlBar.js:36 | an array index larger than every key present goes last |
| Properties.ReplaceSameValue | app/assets/javascripts/peripleo-ui/urlBar.js:36 | writing a key's own value back changes nothing |
| Properties.AssignIdempotent | app/assets/javascripts/peripleo-ui/urlBar.js:36 | assigning the same value twice is the same as assigning it once |
| Properties.DeleteIdempotent | app/assets/javascripts/peripleo-ui/urlBar.js:62 | deleting twice is the same as deleting once |
| Properties.DeleteAppend | app/assets/javascripts/peripleo-ui/urlBar.js:62 | deletion works entry by entry over a concatenation |
| Properties.DeleteAfterReplace | app/assets/javascripts/peripleo-ui/urlBar.js:36 | overwriting `k` leaves the rest, order included, as it was |
| Properties.DeleteAfterInsertIndex | app/assets/javascripts/peripleo-ui/urlBar.js:36 | creating array index `k` leaves the rest, order included, as it was |
| Properties.AssignTouchesOnlyItsKey | app/assets/javascripts/peripleo-ui/urlBar.js:36 | `o[k] = v` leaves every other property, and their order, as it was |
| UrlCodec.ParseBBoxOrder | app/assets/javascripts/peripleo-ui/urlBar.js:17-21 | `bbox=w,e,s,n` is read as west `w`, east `e`, south `s` and north `n` |
| UrlCodec.ParseBBox | app/assets/javascripts/peripleo-ui/urlBar.js:17-21 | `parseBBox`: the comma-separated fields as west, east, south and north; stated by `UrlCodec.ParseBBoxOrder` |
| UrlCodec.AbsorbPiece | app/assets/javascripts/peripleo-ui/urlBar.js:29-36 | one round of the piece loop: key and value split at `=`, `bbox` parsed first (throwing without a value), then stored; stated by `UrlCodec.PieceSplitsAtFirstEquals`, `UrlCodec.PieceWithoutEquals` and `UrlCodec.StoreKeyWithoutValue` |
| UrlCodec.Absorb | app/assets/javascripts/peripleo-ui/urlBar.js:28-37 | the piece loop in order, stopping at a throw; stated by `UrlCodec.ThrowStopsAbsorb`, `UrlCodec.LaterPieceWins`, `UrlCodec.LastBBoxPieceDecides` and `UrlCodec.AbsorbKeepsCanonical` |
| UrlCodec.CoerceNumber | app/assets/javascripts/peripleo-ui/urlBar.js:40-44 | `if (segments.from) segments.from = parseInt(segments.from)`; stated by `UrlCodec.CoerceNumberChangesOnlyItsKey` and `UrlCodec.CoerceOne` |
| UrlCodec.Extend | app/assets/javascripts/peripleo-ui/urlBar.js:46 | `jQuery.extend({}, segments)`; stated by `UrlCodec.ExtendSkipsUndefined` |
| UrlCodec.ParseHash | app/assets/javascripts/peripleo-ui/urlBar.js:23-51 | `parseURLHash` on a given segment object; stated by `UrlCodec.NotAHashLeavesSegments`, `UrlCodec.ParseHashKeepsCanonical`, `UrlCodec.ParsedValueKinds`, `UrlCodec.ParseHashBBox` and `UrlCodec.RoundTrip` |
| UrlCodec.Serialize | app/assets/javascripts/peripleo-ui/urlBar.js:67-73 | the text `updateNow` writes; stated by `UrlCodec.SerializedPieces`, `UrlCodec.AbsentKeyNotSerialized` and `UrlCodec.RoundTrip` |
| UrlCodec.PieceWithoutEquals | app/assets/javascripts/peripleo-ui/urlBar.js:29-31 | a piece without `=` is a key whose value is `undefined` |
| UrlCodec.PieceSplitsAtFirstEquals | app/assets/javascripts/peripleo-ui/urlBar.js:29-31 | the key is the text before the first `=`, and the value is the text up to the second `=`, not decoded |
| UrlCodec.ThrowStopsAbsorb | app/assets/javascripts/peripleo-ui/urlBar.js:28-37 | once a `bbox` piece without a value has thrown, no later piece is stored |
| UrlCodec.Defined | app/assets/javascripts/peripleo-ui/urlBar.js:46 | the copy holds only entries of the source, none of them `undefined` |
| UrlCodec.Pieces | app/assets/javascripts/peripleo-ui/urlBar.js:68-70 | one `key=value` piece per property |
| UrlCodec.NotAHashLeavesSegments | app/assets/javascripts/peripleo-ui/urlBar.js:23-27 | a fragment that does not start with `#` (the empty one included) returns nothing and leaves the segment object as it was; one that does always returns something |
| UrlCodec.KeyWithoutValue | app/assets/javascripts/peripleo-ui/urlBar.js:23-51 | `#k` stores `k` as `undefined`; the returned record leaves it out, and the next write spells it `k=undefined` |
| UrlCodec.StoreKeyWithoutValue | app/assets/javascripts/peripleo-ui/urlBar.js:29-36 | the single piece `k` stores `undefined` under `k` |
| UrlCodec.BareHashCreatesEmptyKey | app/assets/javascripts/peripleo-ui/urlBar.js:24-36 | the empty object is written as the empty string, and `#` parses to the single key `""`, so the empty object does not survive the trip |
| UrlCodec.LaterPieceWins | app/assets/javascripts/peripleo-ui/urlBar.js:28-37 | of several pieces with one key, the last one decides its value, whatever pieces with other keys follow it |
| UrlCodec.LastBBoxPieceDecides | app/assets/javascripts/peripleo-ui/urlBar.js:28-37 | for any pieces on any segment object, the loop's parsed bbox is `parseBBox` of the last `bbox` piece, which has a value, and `segments.bbox` keeps that value as raw text |
| UrlCodec.ParseHashBBox | app/assets/javascripts/peripleo-ui/urlBar.js:23-51 | for any fragment starting with `#`, the call returns something; when it returns the record, the record's `bbox` is `parseBBox` of the last `bbox` piece, while `segments.bbox` keeps the raw text |
| UrlCodec.AbsorbKeepsCanonical | app/assets/javascripts/peripleo-ui/urlBar.js:28-37 | the parse loop keeps the segment object canonical |
| UrlCodec.CoerceKeepsCanonical | app/assets/javascripts/peripleo-ui/urlBar.js:40-44 | the coercion keeps the segment object canonical |
| UrlCodec.ParseHashKeepsCanonical | app/assets/javascripts/peripleo-ui/urlBar.js:23-51 | the whole parse keeps the segment object canonical |
| UrlCodec.CoerceNumberChangesOnlyItsKey | app/assets/javascripts/peripleo-ui/urlBar.js:40-44 | only `from` (or `to`) changes, and only when truthy; it then holds what `parseInt` reads from it |
| UrlCodec.AbsorbKeepsText | app/assets/javascripts/peripleo-ui/urlBar.js:28-37 | pieces store only text or `undefined` |
| UrlCodec.AssignKeepsText | app/assets/javascripts/peripleo-ui/urlBar.js:36 | storing text or `undefined` keeps every value text or `undefined` |
| UrlCodec.AssignValues | app/assets/javascripts/peripleo-ui/urlBar.js:36 | after an assignment every entry was there before or is the assigned one |
| UrlCodec.ReplaceValues | app/assets/javascripts/peripleo-ui/urlBar.js:36 | after an overwrite every entry was there before or is the written one |
| UrlCodec.InsertIndexValues | app/assets/javascripts/peripleo-ui/urlBar.js:36 | after creating an array index every entry was there before or is the new one |
| UrlCodec.ParsedValueKinds | app/assets/javascripts/peripleo-ui/urlBar.js:28-44 | after a parse that returns, other keys hold text or `undefined`, and `from`/`to` hold a number or `NaN` unless they were empty or `undefined` |
| UrlCodec.CoercedEntry | app/assets/javascripts/peripleo-ui/urlBar.js:40-44 | after the coercion of a key, other entries are unchanged, and that key holds a number, `NaN` or its old falsy value |
| UrlCodec.ExtendSkipsUndefined | app/assets/javascripts/peripleo-ui/urlBar.js:46 | the returned record holds exactly the properties whose value is not `undefined`, in order |
| UrlCodec.SplitSerialized | app/assets/javascripts/peripleo-ui/urlBar.js:67-73 | a written fragment splits at `&` back into its pieces when no piece contains `&` |
| UrlCodec.AbsentKeyNotSerialized | app/assets/javascripts/peripleo-ui/urlBar.js:62-70 | a deleted key appears in no piece of the next write |
| UrlCodec.AbsorbLastPiece | app/assets/javascripts/peripleo-ui/urlBar.js:28-37 | parsing the piece written for a new last entry appends that entry as text and takes the bbox from it |
| UrlCodec.LookupStringify | app/assets/javascripts/peripleo-ui/urlBar.js:69 | writing a value as text keeps its key: each key of the written map holds the text of its old value, and no key is gained or lost |
| UrlCodec.AbsorbPieces | app/assets/javascripts/peripleo-ui/urlBar.js:28-37 | parsing the pieces of a safe map into the empty object gives the map with its values as text |
| UrlCodec.NumeralsHaveNoSeparator | app/assets/javascripts/peripleo-ui/urlBar.js:69 | a number is written without `&` or `=` |
| UrlCodec.CoerceAbsent | app/assets/javascripts/peripleo-ui/urlBar.js:40 | the coercion of an absent key changes nothing |
| UrlCodec.CoercePresent | app/assets/javascripts/peripleo-ui/urlBar.js:40-41 | the coercion of a key that holds a written number restores that number in place |
| UrlCodec.CoerceOne | app/assets/javascripts/peripleo-ui/urlBar.js:40-44 | the coercion of a numeric key undoes its writing as text |
| UrlCodec.CoerceRestores | app/assets/javascripts/peripleo-ui/urlBar.js:40-44 | coercing `from` and `to` turns the text form of a safe map back into the map |
| UrlCodec.SerializedPieces | app/assets/javascripts/peripleo-ui/urlBar.js:67-73 | the fragment written for a safe map splits back into its pieces |
| UrlCodec.RoundTrip | app/assets/javascripts/peripleo-ui/urlBar.js:23-73 | for a non-empty canonical map with no `&` or `=` in keys and text values, and integers under `from`/`to`, parsing `'#' + write(m)` into the empty object gives `m`, returns `m`, and parses its `bbox` |
| UrlCodec.ExtendOfFragmentSafe | app/assets/javascripts/peripleo-ui/urlBar.js:46 | the record copies all of a safe map |
| UrlCodec.DefinedOfDefined | app/assets/javascripts/peripleo-ui/urlBar.js:46 | with no `undefined` value nothing is skipped |
| Debounce.Request | app/assets/javascripts/peripleo-ui/urlBar.js:75-92 | a request keeps the flags consistent (one timer exactly while busy; pending only while busy) and leaves the writer busy |
| Debounce.Fire | app/assets/javascripts/peripleo-ui/urlBar.js:78-85 | the timer callback keeps the flags consistent, clears the pending flag, and leaves the writer busy exactly when a request was pending |
| Debounce.RequestArmsOnlyWhenIdle | app/assets/javascripts/peripleo-ui/urlBar.js:88-91 | a request arms a timer exactly when none runs, and otherwise only sets `updatePending` |
| Debounce.WritesUntilIdleCount | app/assets/javascripts/peripleo-ui/urlBar.js:78-85 | letting timers fire writes nothing when idle, once when busy, and twice when a request is pending; it ends idle |
| Debounce.RequestsWhileBusyCoalesce | app/assets/javascripts/peripleo-ui/urlBar.js:88-89 | any number of requests while busy only set the one pending flag |
| Debounce.RequestsFrom | app/assets/javascripts/peripleo-ui/urlBar.js:75-92 | requests compose |
| Debounce.BurstFromIdle | app/assets/javascripts/peripleo-ui/urlBar.js:75-92 | `n` requests from idle lead to no write, one write for `n = 1`, and exactly two for `n >= 2` |
| Debounce.BurstDuringWindow | app/assets/javascripts/peripleo-ui/urlBar.js:75-92 | any burst of requests while a timer runs is served by exactly one write after the running one |
| UrlBar.ApplyLookup | app/assets/javascripts/peripleo-ui/urlBar.js:109-145 | after a handler's edit its key holds the new value or is gone, and every other key reads as before |
| UrlBar.ApplyTouchesOnlyItsKey | app/assets/javascripts/peripleo-ui/urlBar.js:109-145 | a handler's edit leaves every other property, order included, as it was |
| UrlBar.ApplyIdempotent | app/assets/javascripts/peripleo-ui/urlBar.js:109-145 | repeating a handler's edit changes nothing more |
| UrlBar.ApplyKeepsCanonical | app/assets/javascripts/peripleo-ui/urlBar.js:109-145 | an edit keeps the segment object canonical |
| UrlBar.WithParamLookup | app/assets/javascripts/peripleo-ui/urlBar.js:54-64 | `setParam` sets the key for a truthy diff value, deletes it for a falsy one, leaves it when absent, and changes no other key |
| UrlBar.WithParam | app/assets/javascripts/peripleo-ui/urlBar.js:54-64 | `setParam` on the segment object; stated by `UrlBar.WithParamLookup` and `UrlBar.WithParamKeepsCanonical` |
| UrlBar.WithSearch | app/assets/javascripts/peripleo-ui/urlBar.js:102-107 | the `SEARCH_CHANGED` handler on the segment object; stated by `UrlBar.WithSearchLookup` and `UrlBar.WithSearchKeepsCanonical` |
| UrlBar.AtValue | app/assets/javascripts/peripleo-ui/urlBar.js:98 | the `at` text: latitude, longitude and zoom joined by commas; its use is stated by `UrlBar.URLBar.ViewChanged` |
| UrlBar.WithSearchLookup | app/assets/javascripts/peripleo-ui/urlBar.js:102-107 | `SEARCH_CHANGED` decides `query`, `from` and `to` by the diff alone and leaves every other key as it was |
| UrlBar.WithParamKeepsCanonical | app/assets/javascripts/peripleo-ui/urlBar.js:54-64 | `setParam` keeps the segment object canonical |
| UrlBar.WithSearchKeepsCanonical | app/assets/javascripts/peripleo-ui/urlBar.js:102-107 | `SEARCH_CHANGED` keeps the segment object canonical |
| UrlBar.SelectionEdit | app/assets/javascripts/peripleo-ui/urlBar.js:117-125 | `SELECTION` edits `places`: set exactly for a non-empty selection, to the encoded first identifier, which holds no `&`, `=` or `#`; deleted for `false` or an empty list |
| UrlBar.LayerEditLookup | app/assets/javascripts/peripleo-ui/urlBar.js:109-115 | after `CHANGE_LAYER` the key `layer` is absent for `awmc` and holds the layer name otherwise; every other key reads as before |
| UrlBar.FlagEditLookup | app/assets/javascripts/peripleo-ui/urlBar.js:127-145 | after a flag handler the flag key holds its marker (`f=open`, `ex=true`) exactly when switched on and is absent when switched off; every other key reads as before |
| UrlBar.URLBar.constructor | app/assets/javascripts/peripleo-ui/urlBar.js:10-14 | empty segment object, not busy, nothing pending, no timer, nothing written |
| UrlBar.URLBar.ParseURLHash | app/assets/javascripts/peripleo-ui/urlBar.js:23-51 | the loop over the pieces leaves the segment object, and returns the result, that `UrlCodec.ParseHash` gives for the old segment object; it stays canonical |
| UrlBar.URLBar.StorePiece | app/assets/javascripts/peripleo-ui/urlBar.js:28-37 | one round of the loop is one `UrlCodec.AbsorbPiece` step, including the throw on a `bbox` piece without a value |
| UrlBar.URLBar.CoerceTimespan | app/assets/javascripts/peripleo-ui/urlBar.js:40-44 | a truthy `from`/`to` is replaced by its `parseInt` |
| UrlBar.URLBar.SetParam | app/assets/javascripts/peripleo-ui/urlBar.js:54-64 | `setParam` applies `UrlBar.ParamEdit` and keeps the object canonical |
| UrlBar.URLBar.UpdateNow | app/assets/javascripts/peripleo-ui/urlBar.js:67-73 | exactly one write is appended: the serialisation of the current segment object |
| UrlBar.URLBar.ScheduleUpdate | app/assets/javascripts/peripleo-ui/urlBar.js:76-86 | sets `busy` and arms one timer |
| UrlBar.URLBar.UpdateURLField | app/assets/javascripts/peripleo-ui/urlBar.js:75-92 | the flags move as `Debounce.Request` says; nothing is written |
| UrlBar.URLBar.TimerFires | app/assets/javascripts/peripleo-ui/urlBar.js:78-85 | writes the segment object as it is at that moment, and the flags move as `Debounce.Fire` says |
| UrlBar.URLBar.EditNow | app/assets/javascripts/peripleo-ui/urlBar.js:109-145 | applies one key-scoped edit and then writes exactly once |
| UrlBar.URLBar.ViewChanged | app/assets/javascripts/peripleo-ui/urlBar.js:94-100 | `at` is set to `lat,lon,zoom`, no other key changes, and a debounced write is requested |
| UrlBar.URLBar.SearchChanged | app/assets/javascripts/peripleo-ui/urlBar.js:102-107 | `query`, `from` and `to` are set from the diff, and a debounced write is requested |
| UrlBar.URLBar.ChangeLayer | app/assets/javascripts/peripleo-ui/urlBar.js:109-115 | applies `UrlBar.LayerEdit` and writes once |
| UrlBar.URLBar.Selection | app/assets/javascripts/peripleo-ui/urlBar.js:117-125 | applies `UrlBar.SelectionEdit` and writes once |
| UrlBar.URLBar.ShowFilters | app/assets/javascripts/peripleo-ui/urlBar.js:127-130 | sets `f=open` and writes once |
| UrlBar.URLBar.HideFilters | app/assets/javascripts/peripleo-ui/urlBar.js:132-135 | deletes `f` and writes once |
| UrlBar.URLBar.StartExploration | app/assets/javascripts/peripleo-ui/urlBar.js:137-140 | sets `ex=true` and writes once |
| UrlBar.URLBar.StopExploration | app/assets/javascripts/peripleo-ui/urlBar.js:142-145 | deletes `ex` and writes once |
| SearchPanel.InitialView | app/assets/javascripts/peripleo-ui/searchPanel.js:55-58 | the panel starts in search state with total 0 and list-all hidden, consistent for any number format |
| SearchPanel.TotalsLabel | app/assets/javascripts/peripleo-ui/searchPanel.js:74-76 | the totals label, `(` + the formatted total + `)`; where it shows is stated by `SearchPanel.LabelShowsLastTotal` and `SearchPanel.LabelFollowsResponses` |
| SearchPanel.OnApiResponse | app/assets/javascripts/peripleo-ui/searchPanel.js:86-90 | a response keeps the panel consistent |
| SearchPanel.WithIcon | app/assets/javascripts/peripleo-ui/searchPanel.js:61-71 | the icon shows the cross exactly when it has class `clear`; nothing else changes |
| SearchPanel.IconClearIffNotBlank | app/assets/javascripts/peripleo-ui/searchPanel.js:61-71 | the icon is the magnifier without `clear` exactly when the input is all white space, and the cross with `clear` otherwise |
| SearchPanel.SubmitEvents | app/assets/javascripts/peripleo-ui/searchPanel.js:112-121 | exactly two events, `QUERY_PHRASE_CHANGED` then `SEARCH_CHANGED`; the diff's only key is `query`, which carries the same phrase: `false` or non-empty text |
| SearchPanel.SubmitBlankIff | app/assets/javascripts/peripleo-ui/searchPanel.js:113-121 | the phrase is `false` exactly for a blank input, and otherwise the trimmed input |
| SearchPanel.TransitionsKeepConsistent | app/assets/javascripts/peripleo-ui/searchPanel.js:61-108 | every transition keeps list-all shown exactly in sub-search, the label in sub-search showing the cached total, and the icon one of the two glyphs |
| SearchPanel.ToSubsearchIdempotent | app/assets/javascripts/peripleo-ui/searchPanel.js:100-103 | entering sub-search twice is the same as entering it once |
| SearchPanel.ToSearchIdempotent | app/assets/javascripts/peripleo-ui/searchPanel.js:93-97 | returning to search twice is the same as returning once |
| SearchPanel.ResponsesKeepState | app/assets/javascripts/peripleo-ui/searchPanel.js:86-90 | responses never change the state, always store the last total, and in search state leave the label alone |
| SearchPanel.LabelShowsLastTotal | app/assets/javascripts/peripleo-ui/searchPanel.js:86-90 | on entering sub-search the label shows the last total received, in whichever state it came |
| SearchPanel.LabelFollowsResponses | app/assets/javascripts/peripleo-ui/searchPanel.js:86-90 | in sub-search the label follows every response |
| SearchPanel.ResponsesConsistent | app/assets/javascripts/peripleo-ui/searchPanel.js:86-90 | any run of responses keeps the panel consistent |
| SearchPanel.LateSlideUpReordersSearchState | app/assets/javascripts/peripleo-ui/searchPanel.js:93-107 | a slide-up callback still queued when search state returns runs afterwards and leaves the selection info on top in search state |
| SearchPanel.SubmitUpdatesQuery | app/assets/javascripts/peripleo-ui/searchPanel.js:112-121 | on the URL bar a submitted blank input deletes `query`, and any other input sets it to the trimmed text |
| SearchPanel.SearchPanel.constructor | app/assets/javascripts/peripleo-ui/searchPanel.js:55-58 | the panel starts in `SearchPanel.InitialView` with no event fired |
| SearchPanel.SearchPanel.UpdateIcon | app/assets/javascripts/peripleo-ui/searchPanel.js:61-71 | the view becomes `SearchPanel.WithIcon` of the old view |
| SearchPanel.SearchPanel.UpdateTotalsCount | app/assets/javascripts/peripleo-ui/searchPanel.js:74-76 | the label becomes `(` + the formatted total + `)` |
| SearchPanel.SearchPanel.OnAPIResponse | app/assets/javascripts/peripleo-ui/searchPanel.js:86-90 | the view becomes `SearchPanel.OnApiResponse` of the old view |
| SearchPanel.SearchPanel.ToStateSearch | app/assets/javascripts/peripleo-ui/searchPanel.js:93-97 | the view becomes `SearchPanel.ToSearch` of the old view |
| SearchPanel.SearchPanel.ToStateSubsearch | app/assets/javascripts/peripleo-ui/searchPanel.js:100-108 | the view becomes `SearchPanel.ToSubsearch` of the old view |
| SearchPanel.SearchPanel.SlideUpFinished | app/assets/javascripts/peripleo-ui/searchPanel.js:104-107 | the view becomes `SearchPanel.SlideUpDone` of the old view |
| SearchPanel.SearchPanel.Submit | app/assets/javascripts/peripleo-ui/searchPanel.js:112-121 | fires exactly `SearchPanel.SubmitEvents` of the input |
| SearchPanel.SearchPanel.Keypress | app/assets/javascripts/peripleo-ui/searchPanel.js:127-133 | refreshes the icon, and submits exactly when the key is Enter (13) |
| PageUtils.FormatIsFirstMatch | app/assets/javascripts/page-utils.js:25-47 | `formatGazetteerURI` is the rule table tried in order, the first marker found deciding |
| PageUtils.FormatGazetteerURI | app/assets/javascripts/page-utils.js:25-47 | `formatGazetteerURI`; stated by `PageUtils.FormatIsFirstMatch`, `PageUtils.GazetteerRuleApplies` and `PageUtils.UnchangedIffNoMarker` |
| PageUtils.FirstMatchAt | app/assets/javascripts/page-utils.js:26-43 | the rule whose marker occurs, with no earlier marker occurring, decides the result |
| PageUtils.FirstMatchNone | app/assets/javascripts/page-utils.js:44-46 | with no marker present the table returns the URI |
| PageUtils.GazetteerRuleApplies | app/assets/javascripts/page-utils.js:26-43 | a URI whose first occurring marker is rule `i`'s gives that rule's `label:` plus `substr(offset)` |
| PageUtils.UnknownURIUnchanged | app/assets/javascripts/page-utils.js:44-46 | a URI holding no marker is returned unchanged |
| PageUtils.UnchangedIffNoMarker | app/assets/javascripts/page-utils.js:25-47 | the URI comes back unchanged exactly when it holds no marker |
| PageUtils.OffsetsPastMarker | app/assets/javascripts/page-utils.js:26-43 | each offset is at or past the end of its marker, and each tag is shorter than its marker |
| PageUtils.OffsetSkips | app/assets/javascripts/page-utils.js:26-43 | the offsets skip 0, 0, 0, 0, 1, 0, 3, 10 and 2 characters past the markers, in table order |
| PageUtils.FirstContained | app/assets/javascripts/page-utils.js:26-43 | when some marker occurs, there is a first one that does |
| PageUtils.MarkerThenIdentifier | app/assets/javascripts/page-utils.js:26-43 | a URI made of a marker and an identifier gives the label and the identifier less the skipped characters, or the bare label when the identifier is too short |
| PageUtils.PleiadesIdentifier | app/assets/javascripts/page-utils.js:26-27 | `http://pleiades.stoa.org/places/ID` gives `pleiades:ID` |
| PageUtils.MarkerAnywhere | app/assets/javascripts/page-utils.js:26-27 | a marker anywhere in the URI matches, and the cut is still counted from the start of the URI |
| PageUtils.LicenseOfIff | app/assets/javascripts/page-utils.js:14-19 | a URL is classed under a licence exactly when it starts with that licence's prefix; the prefixes exclude each other |
| PageUtils.LicenseIcon | app/assets/javascripts/page-utils.js:13-23 | `licenseIcon`; stated by `PageUtils.LicenseIconByLicense` and `PageUtils.LicenseIconAnchor` |
| PageUtils.IndexTestsArePrefixTests | app/assets/javascripts/page-utils.js:14-18 | the three `indexOf(prefix) == 0` tests are prefix tests |
| PageUtils.IconOfRecognised | app/assets/javascripts/page-utils.js:14-19 | a URL with a licence prefix gets that licence's anchor: class `license`, its title and its image |
| PageUtils.IconOfUnrecognised | app/assets/javascripts/page-utils.js:20-22 | any other URL gets the plain anchor with the URL as `href` and as text |
| PageUtils.LicenseIconByLicense | app/assets/javascripts/page-utils.js:13-23 | `licenseIcon` is the licence anchor for a recognised licence, and the plain anchor otherwise |
| PageUtils.RenderShape | app/assets/javascripts/page-utils.js:13-23 | both anchors open with `<a ` followed by the `href` holding the URL verbatim; only the licence anchor carries class `license` |
| PageUtils.LicenseAnchorShape | app/assets/javascripts/page-utils.js:15 | a licence anchor opens with `<a class="license" href="` and then the URL |
| PageUtils.PlainAnchorShape | app/assets/javascripts/page-utils.js:21 | a plain anchor opens with `<a href="` and then the URL |
| PageUtils.LicenseIconAnchor | app/assets/javascripts/page-utils.js:13-23 | every output starts with `<a ` and holds `url` verbatim as its `href`; it has class `license` exactly when the URL starts with a recognised prefix |

## Left out

- The event broker (`peripleo-ui/events/events`) is not part of this model. Handlers are methods called directly; dispatch order and error isolation are not modelled.
- Nothing from jQuery or the DOM is modelled: element construction, `find`, `show`/`hide`, `slideDown` and the other animations, `blur`, and the sub-widgets `AutoSuggest`, `FilterPanel`, `SelectionInfo` and `SearchAtButton`.
  - Visibility, container order and label HTML are fields.
  - The slide-up callback is a queued flag run by `SlideUpFinished`.
- `onClearSearch` and its click binding (`searchPanel.js:79-83,135`) are left out because they call `AutoSuggest.clear`, which is not part of this model.
- The `LOAD` handler (`searchPanel.js:148-153`) is left out. It reads an undeclared `input`.
- The `#filterPanel` lookup (`searchPanel.js:47`) does not match the container's id `filterpanel` (line 35). The model moves the containers as the code evidently intends.
- `UrlBar.URLBar.ViewChanged` takes the centre latitude and longitude already formatted. The midpoint and `toFixed(8)` are floating point.
- `UrlCodec.ParseBBox` keeps each component as the field text that is passed to `parseFloat`, because `parseFloat` is floating point.
- Numbers are unbounded integers. Non-integral numbers and the precision limit of JavaScript numbers are not modelled, so `parseInt` of a numeral above 2^53 is exact here.
- `Formatting.formatNumber` is the function the panel is built with. `numeral.js` is not modelled.
- The timer's delay (`SLEEP_DURATION`) and `setTimeout` itself are not modelled: the environment calls `TimerFires` while a timer is outstanding.
- `window.location.hash` is the append-only log `hashes`. The browser's own normalisation of a written fragment is not modelled.
- Selected items are given by their identifiers: `None` for a falsy `selectedItems`, otherwise the identifiers in order.
- Strings are sequences of Unicode scalar values, while JavaScript strings are sequences of UTF-16 code units.
  - `encodeURIComponent`'s `URIError` on a lone surrogate cannot arise.
  - `substr`, `indexOf` and `.length` count scalar values here but code units in JavaScript. So when a character outside the Basic Multilingual Plane comes before the cut, `PageUtils.FormatGazetteerURI` cuts one position later per such character than the browser does.
- `util.formatNumbers` and `util.buildPageRequestURL` (`page-utils.js`) are left out: one is DOM and `numeral.js`, the other reads `location.search` through regular expressions.
- `search/events.js` holds only event-name constants, and `settingsEditor.js` only fires `CHANGE_LAYER` from a dialog. Neither has behaviour to verify here.
- Keys that are properties of `Object.prototype` are not modelled. Reading `segments.from` or `segments.to` when it is absent gives `undefined`.
