# url-collector popup, modelled in Dafny

The url-collector browser extension has a popup with three buttons.

- **Add** collects the active tab's URL into a stored list. Before storing it, the popup strips known tracking query parameters: the 29 keys of `TRACKING_PARAMS`, such as `utm_*`, `gclid`, `fbclid` and `ref`. Keys are compared without regard to case.
- **Copy All** copies the list, one URL per line.
- **Clear All** empties the list, but only after a second, confirming click within three seconds.

Each list row shows the URL, HTML-escaped, and has a remove button.

This project models `popup.js`, the extension's only logic, in seven modules.

| module | file | models |
|---|---|---|
| `Text` | `text.dfy` | lower-casing (`toLowerCase`) of the characters whose lower-case form is ASCII, `endsWith` and an `Option` type |
| `UrlCleaner` | `url_cleaner.dfy` | `TRACKING_PARAMS` and `cleanUrl`, both as written and as intended |
| `CleanerExamples` | `url_cleaner_examples.dfy` | worked examples of cleaning on concrete URLs |
| `Display` | `display.dfy` | `esc`, the `join('\n')` of Copy All, the `n URL`/`n URLs` labels, and `parseInt` of a row's `data-index` |
| `UrlList` | `url_list.dfy` | the stored list as a value, and how Add and Remove transform it |
| `ClearConfirm` | `clear_confirm.dfy` | the two-step confirmation of Clear All as a state machine over click and timer events |
| `Popup` | `popup.dfy` | class `UrlCollector`, the popup's state, with one method per button handler |

### Parsing is an input, not part of the model

`cleanUrl` relies on the platform's `new URL(raw)`, which is not part of this model. Every cleaning operation therefore takes the outcome of parsing as an argument `parsed: Option<Url>`:

- `None` means the constructor threw.
- A `Url` is a base (scheme, authority and path), an optional query, and an optional fragment.
- The query is an ordered sequence of key/value pairs.

`Serialize` rebuilds the text as follows:

1. the base;
2. then `?` and the pairs as `key=value`, joined by `&`;
3. then `#` and the fragment.

The model uses `Serialize` as the text of every URL it cleans. The code rebuilds the query text this way only after a delete; when it deletes nothing it keeps the parser's own query text (see "## Left out").

As `URLSearchParams.delete` does in the serializers this code was written against, the `?` stays when every pair has been deleted. The cleaner's last step exists to remove that leftover `?`.

### What is proved

**Cleaning: the deletion loop.**
- `DeleteDeniedParams` is an imperative loop over a snapshot of the keys. It deletes every pair whose lower-cased key is listed.
- It is proved to leave exactly the pairs that a one-pass filter, `Strip`, keeps.
- `Strip` is characterised by membership, by multiset counts, by an if-and-only-if for "nothing changed", and by idempotence.

**Cleaning: the result.**
- Cleaning never touches the base or the fragment.
- Cleaning keeps every pair that has no tracking key.
- Cleaning is idempotent.
- Cleaning leaves a URL unchanged exactly when the URL has no tracking key and no bare trailing `?`.

**Escaping.**
- The chain of four `replace` calls in `esc` equals a one-pass, per-character escape. This holds because `&` is replaced first.
- The result holds no `<`, `>` or `"`, and every `&` in it begins one of the four entities.
- An HTML reader recovers the original string from it.

**The list.**
- Add never creates a duplicate.
- Add stores a page's cleaned URL exactly once.
- Add is idempotent.
- Remove shifts the later rows up by one and keeps the list free of duplicates.
- Removing a row that Add just appended restores the list.

**Copy All and the labels.**
- Splitting the copied text at newlines gives the list back.
- The count label reads back as the count, and it is plural exactly when the count is not 1.

**Clear All.**
- The timer flag and the button phase stay in step.
- Only a confirming click changes the list.
- From rest, a non-empty list is emptied only by two clicks in a row.

Two behaviours of the code are worth stating, because the model keeps them:
- The remove handler has no out-of-range outcome. A remove click whose index is past the end of the list leaves the list as it was, as `splice` does, and still shows "URL removed".
- The confirming click of Clear All stores `[]` without reading the list again. If the list was emptied in the meantime, it stores the empty list again and shows "List cleared".

## Model

| member | source | states |
|---|---|---|
| UrlCleaner.IsTrackingKey | popup.js:2-36 | a key is a tracking key when its lower-cased form is one of the 29 listed keys; `CleanerExamples` shows listed, unlisted and Kelvin-sign keys |
| UrlCleaner.KeysOf | popup.js:35 | the snapshot of keys has one entry per pair, in order, repeats included |
| UrlCleaner.DeleteKey | popup.js:37 | `searchParams.delete(key)` drops every pair with exactly that key; its effect inside the loop is stated by `UrlCleaner.VisitNext` |
| UrlCleaner.VisitNext | popup.js:35-38 | visiting one more key of the snapshot deletes all its pairs when its lower-cased form is listed, and otherwise changes nothing |
| UrlCleaner.StripMembers | popup.js:35-39 | a pair survives cleaning exactly when it was in the query and its key, lower-cased, is not listed |
| UrlCleaner.StripAppend | popup.js:35-39 | deleting pairs works piecewise: the pairs kept from a query split in two are the pairs kept from each part, in order, so the kept pairs keep their relative order |
| UrlCleaner.StripCounts | popup.js:35-39 | every occurrence of a listed key is deleted, however often it is repeated; every other pair keeps its number of occurrences |
| UrlCleaner.StripUnchangedIff | popup.js:35-39 | the deletion loop changes the pairs exactly when some key is listed |
| UrlCleaner.StripIdempotent | popup.js:35-39 | deleting the tracking pairs a second time deletes nothing more |
| UrlCleaner.DeleteDeniedParams | popup.js:35-39 | deleting, in place and key by key, every listed key of a snapshot of the keys leaves exactly the pairs `Strip` keeps, in their order |
| UrlCleaner.CleanAsWritten | popup.js:32-49 | `cleanUrl` as written, including the removal of any trailing `?`; its behaviour is exhibited by `CleanAsWrittenAltersFragment` and `CleanAsWrittenNotIdempotent` and bounded by `CleanAgreesWithAsWritten` |
| UrlCleaner.CleanAsWrittenAltersFragment | popup.js:40-44 | as written, `https://example.com/page#section?` loses the `?` of its fragment, although it has no query |
| UrlCleaner.CleanAsWrittenNotIdempotent | popup.js:40-44 | as written, cleaning `https://example.com/#a??` twice gives two different results |
| UrlCleaner.CleanAgreesWithAsWritten | popup.js:40-44 | when the fragment does not end in `?`, the corrected cleaner gives the same text as the code as written |
| UrlCleaner.Cleaned | popup.js:32-45 | cleaning keeps the base and the fragment, keeps exactly the unlisted pairs, and drops the query marker only when no pair is left and no fragment follows |
| UrlCleaner.CleanedPairs | popup.js:35-39 | after cleaning, no pair has a tracking key, and every pair without one is still there |
| UrlCleaner.Clean | popup.js:46-48 | an input that does not parse is returned unchanged |
| UrlCleaner.CleanedIdempotent | popup.js:32-45 | cleaning a cleaned URL changes nothing |
| UrlCleaner.CleanIdempotent | popup.js:32-48 | cleaning the text of a cleaned URL gives the same text again |
| UrlCleaner.CleanUnchangedIff | popup.js:32-45 | cleaning leaves a URL's text as it was exactly when no key is a tracking key and the URL does not end in an empty `?` |
| UrlCleaner.CleanUrl | popup.js:32-49 | the imperative cleaner (the deletion loop, re-serialisation and the removal of an emptied query's marker) computes `Clean` |
| Text.LowerIdempotent | popup.js:36 | the lower-cased key has no upper-case letter left, and lower-casing it again changes nothing |
| CleanerExamples.UtmSourceIsListed | popup.js:4 | `utm_source` is a tracking key |
| CleanerExamples.IdIsNotListed | popup.js:2-30 | `id` is not a tracking key |
| CleanerExamples.RefIsListed | popup.js:29 | `ref` is a tracking key |
| CleanerExamples.KelvinSignKeyIsListed | popup.js:36-37 | a key spelled `s_` + KELVIN SIGN + `wcid` lower-cases to the listed `s_kwcid` and is therefore deleted |
| CleanerExamples.ShopExample | popup.js:32-45 | `https://shop.example.com/item?id=5&utm_source=fb&ref=abc`, which is the text of the parsed URL given, cleans to `https://shop.example.com/item?id=5` |
| CleanerExamples.EmptiedQueryExample | popup.js:40-44 | `https://a.example.com/?utm_source=x`, which is the text of the parsed URL given, cleans to `https://a.example.com/`, without the `?` |
| Display.Esc | popup.js:77-83 | the four global replacements in source order; their meaning is stated by `EscIsEscapeEach`, `EscIsInert`, `EscAmpersands` and `UnescapeEsc` |
| Display.EscIsEscapeEach | popup.js:77-83 | the four global replacements, applied in source order, escape each character independently, so no entity is escaped twice |
| Display.EscIsInert | popup.js:77-83 | escaped text contains no `<`, `>` or `"`, so it cannot end the `title` attribute or open a tag in the row markup |
| Display.EscAmpersands | popup.js:77-83 | every `&` in escaped text begins `&amp;`, `&lt;`, `&gt;` or `&quot;` |
| Display.EscOfPlain | popup.js:77-83 | a string with none of `&<>"` is shown as it is |
| Display.UnescapeEsc | popup.js:77-83 | decoding the four entities gives back the original string, so escaping loses nothing |
| Display.Join | popup.js:175 | `join('\n')`; `SplitJoin` proves it loses no entry and no order |
| Display.SplitJoin | popup.js:175 | when no entry holds a newline, splitting the newline-joined list at newlines gives back the list |
| Display.CopyPayload | popup.js:174-175 | there is something to copy exactly when the list is not empty |
| Display.CopyPayloadLines | popup.js:174-175 | the copied text holds every stored URL, in order, one per line |
| Display.CopyToast | popup.js:174-176 | Copy All reports "Nothing to copy" exactly when the list is empty |
| Display.ParseIntOfDecimal | popup.js:114-125 | `parseInt` of the `data-index` written for row `i` gives back `i` |
| Display.CountLabel | popup.js:99 | the `n URL`/`n URLs` text; `CountLabelMeaning` proves what it states |
| Display.CountLabelMeaning | popup.js:99 | the counter label reads back as the number of URLs, and ends in `s` exactly when that number is not 1 |
| UrlList.IsUncollectable | popup.js:155 | the pages Add refuses: an empty URL, and URLs starting with `chrome://`, `chrome-extension://` or `about:` |
| UrlList.AddOutcomeOf | popup.js:155-164 | refuse an uncollectable page, report a cleaned URL already stored, and otherwise add it; `Popup.UrlCollector.Add` is proved to compute it |
| UrlList.AfterAdd | popup.js:153-169 | the list after Add; its meaning is stated by `AddMeaning`, `AddKeepsNoDuplicates`, `AddStoresOnce` and `AddIdempotent` |
| UrlList.AddToast | popup.js:155-168 | each outcome of Add has its own, distinct toast |
| UrlList.AddMeaning | popup.js:153-169 | Add leaves the list unchanged for an uncollectable page or for a URL already stored, and otherwise appends the cleaned URL; afterwards the cleaned URL of any collectable page is in the list |
| UrlList.AddKeepsNoDuplicates | popup.js:161-165 | Add never introduces a duplicate |
| UrlList.AddStoresOnce | popup.js:159-165 | after Add of a collectable page, its cleaned URL occurs exactly once |
| UrlList.AddIdempotent | popup.js:153-169 | adding the same page twice leaves the list as one Add did |
| UrlList.RemovedAt | popup.js:125 | removing row `i` drops exactly that entry (one occurrence fewer), keeps the earlier rows and moves the later ones up by one, and leaves the list unchanged when `i` is past the end |
| UrlList.RemoveKeepsNoDuplicates | popup.js:125 | removal keeps the list free of duplicates, and the removed URL is then gone |
| UrlList.RemoveUndoesAdd | popup.js:125 | removing the row that an Add just appended restores the list |
| ClearConfirm.Next | popup.js:180-203 | one click or timer event of the Clear All button; its meaning is stated by `NextConsistent`, `NextUrls`, `ClearNeedsTwoClicks` and `TimeoutDisarms` |
| ClearConfirm.ClickToast | popup.js:183-201 | a click says "List cleared" exactly when confirming, and "List is already empty" exactly on a first click with an empty list |
| ClearConfirm.NextConsistent | popup.js:180-203 | the reset timer is pending exactly while the button asks for confirmation, after every click and every timer event |
| ClearConfirm.NextUrls | popup.js:180-203 | only a confirming click changes the list, and then it empties it; the button enters confirmation only on a first click with a non-empty list |
| ClearConfirm.ClearNeedsTwoClicks | popup.js:180-203 | from rest, a non-empty list is emptied only by a run of events with two clicks in a row |
| ClearConfirm.TwoClicksClear | popup.js:180-203 | two clicks in a row from rest empty the list and leave the button at rest |
| ClearConfirm.TimeoutDisarms | popup.js:183-194 | a first click that the timer overtakes leaves the button and the list as they were |
| Popup.UrlCollector.constructor | popup.js:150 | the popup opens on the stored list with the Clear All button at rest |
| Popup.UrlCollector.Add | popup.js:153-169 | the Add handler computes `AddOutcomeOf`, shows its toast, and leaves the list as `AfterAdd` |
| Popup.UrlCollector.Remove | popup.js:122-129 | the remove handler leaves the list as `RemovedAt` at the parsed index, with no duplicate introduced |
| Popup.UrlCollector.ClearClick | popup.js:180-203 | the Clear All handler takes the button and the list one `Click` step along the confirmation machine, keeping timer and phase in step |
| Popup.UrlCollector.ResetClearButton | popup.js:137-145 | the timer puts the button back at rest and leaves the list alone |
| Popup.UrlCollector.CopyAll | popup.js:172-177 | Copy All produces `CopyPayload` and `CopyToast` of the list, which it does not change |
| Popup.UrlCollector.Counter | popup.js:99 | the counter states the number of stored URLs, in the plural unless it is 1 |

## Left out

- URL parsing (`new URL`) is a parameter, not modelled. The parsed form is taken as given, and so is the WHATWG rule that a base never contains `?`.
- UrlCleaner.Serialize, UrlCleaner.CleanAsWritten, UrlCleaner.Clean, UrlCleaner.CleanUrl: the model takes a URL's text to be `Serialize` of its parse, so the query text is always rebuilt from the pairs. The code keeps the parser's own query text when it deletes nothing, and serialises the pairs only after a delete. The two differ on query text that the serializer would write differently. For `https://x.com/?a` (one pair `a` with an empty value) the model gives `https://x.com/?a=` and the code keeps `https://x.com/?a`. For `https://x.com/?&` (no pairs) the model gives `https://x.com/` and the code keeps `https://x.com/?&`, since its size is 0 but its text does not end in `?`.
- Percent-encoding of query keys and values by `URLSearchParams` is not modelled. Pairs are serialised as `key=value` text.
- Newer `URLSearchParams` serializers drop a bare `?` themselves. The model follows the serializer that keeps it.
- Text.Lower: maps `A`-`Z` and the KELVIN SIGN (U+212A, which `toLowerCase` turns into `k`) and leaves every other character as it is. JavaScript's `toLowerCase` also maps other non-ASCII letters, to non-ASCII text. Such a key cannot be listed either way, because every listed key is ASCII, but the model's lower-cased key differs from JavaScript's.
- Storage (`chrome.storage.local`), the tabs query and the clipboard are not modelled. The stored list is a field, the tab's URL is a parameter, and the clipboard text is a result.
- The `await` points inside a handler are not modelled: the model runs each handler atomically, and the popup does not. The popup interleaves handlers at every `await`. For example, two quick Clear All clicks both take the first-click branch in the popup, because the button is marked as confirming (popup.js:187) only after `await loadUrls()` (popup.js:185) returns; in the model the second click empties the list.
- The DOM is not modelled: rendering the row markup, showing and hiding the empty state, button icons, and the two-second toast timer. Toast texts are results.
- Timers are events: the three-second confirmation timeout is `TimerFires`, or the `ResetClearButton` method. Durations are not modelled.
- Popup.UrlCollector.Remove: requires a `data-index` that starts with a digit, which every rendered row has. `parseInt`'s `NaN` and negative results, and `splice` with a negative start, are not modelled.
- UrlList.AddOutcomeOf, UrlCleaner.CleanUrl, UrlList.AfterAdd, Popup.UrlCollector.Add: these use the corrected cleaner `UrlCleaner.Clean`, not the code as written. When a URL has no query pairs left and its text ends in `?` inside the fragment, the code stores the URL without that `?`, and the model stores it with the `?`. For example, the code stores `https://example.com/page#section?` as `https://example.com/page#section`. So with `https://example.com/page#section` already stored, adding `https://example.com/page#section?` is `Added` in the model, where the code reports "Already in list". Everywhere else the two agree (`UrlCleaner.CleanAgreesWithAsWritten`).
- `create_icons.py` is a build-time icon generator and is not part of this model.

## Findings

| source | as written | input that shows it | evidently intended | confidence | as-written member | corrected member |
|---|---|---|---|---|---|---|
| popup.js:42-44 | when no parameter remains, any trailing `?` of the whole URL text is removed, including a `?` that ends the fragment; cleaning is then not idempotent | `https://example.com/page#section?` becomes `https://example.com/page#section`; `https://example.com/#a??` becomes `…#a?`, then `…#a` | remove only the `?` of a query left empty, and only when nothing follows it | not executed | UrlCleaner.CleanAsWritten | UrlCleaner.Clean |
