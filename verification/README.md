# Client-side widgets of the CachyOS website, modelled in Dafny

`main.js` wires seven small widgets into a static web page. Under the DOM calls
each widget is a little state machine over page state: the document's
`data-theme` attribute, the `localStorage` preferences, "active", "scrolled"
and "copied" class markers, element styles, and a nested translation table.
This project models that state and the event handlers that change it, and
proves what the handlers promise.

| module | file | models |
|---|---|---|
| `Options` | options.dfy | a possibly missing value (`null`/`undefined`) |
| `Storage` | storage.dfy | `localStorage` as a class over a `map`, JavaScript truthiness of `getItem` and `a \|\| b` |
| `Strings` | strings.dfy | `split` with a one-character separator (with its inverse `Join`), `split(...).pop()`, ASCII `toUpperCase` |
| `Translations` | translations.dfy | the translation tree and `getNestedTranslation` as a left fold of optional-chaining steps |
| `Language` | language.dfy | `LanguageManager`: initial language, toggle, persisted choice, table load outcome, `applyTranslations`, button label |
| `Theme` | theme.dfy | `ThemeManager`: toggle, persisted choice, system colour-scheme changes |
| `Navigation` | mobile_nav.dfy | `MobileNav`: the two "active" markers and the toggle/close/outside-click/Escape handlers |
| `Scrolling` | scroll_effects.dfy | `ScrollEffects`: the navbar threshold, the `ticking` frame guard, the one-shot reveal |
| `ActiveNavigation` | active_nav.dfy | `ActiveNav`: current page name and the marking of matching links |
| `Donation` | donate_modal.dfy | `DonateModal`: open/close, the scroll lock, the "copied" markers and the clipboard |

Each widget that updates state in place is a class whose fields are that state
(a DOM element that may be missing from the page is an `Option` field, or a
presence flag such as `DonateModal.hasModal`, and every operation on a missing
element is a no-op, as optional chaining makes it in the source). Each handler is a method whose `ensures` gives the whole new
state, directly or through a pure transition function, and the properties the widgets
promise are proved about those functions as lemmas and as class invariants
(`Valid()`): at most one pending animation frame, watched elements never
already revealed, at most one field marked "copied", both menu markers in
step. The loops of the source (`forEach` over the translated elements, the
navigation links, the copy fields, the animated elements and the observer
entries) are `for` loops with invariants.

Where the documented behaviour of the widgets and the code disagree, the model
follows the code:

- `ThemeManager`'s constructor only wires listeners. It does not read the
  stored theme and does not apply the system preference (main.js:2-15); the
  page is expected to set `data-theme` before the script runs. The model's
  constructor leaves the store and the attribute untouched.
- A translation load that fails or answers with a non-ok status leaves
  `translations` exactly as it was (main.js:44-50). It is empty only if no
  load has ever succeeded; after a language switch whose load fails, the
  previous language's table stays and is re-applied.
- The current language is whatever non-empty string is stored under
  `language` (main.js:31), not necessarily `de` or `en`; the toggle maps `de`
  to `en` and every other value to `de`.
- In `ActiveNav.init` the disjunct `currentPage === '' && href === 'index.html'`
  (main.js:203) can never hold: `|| 'index.html'` at main.js:200 makes the
  page name non-empty. `ActiveNavigation.Init` keeps the disjunct as written,
  and `ActiveNavigation.CurrentPage` proves the name is never empty, so an
  empty path marks exactly the `index.html` links through the first disjunct.

## Model

| member | source | states |
|---|---|---|
| `Storage.OrElse` | main.js:31 | `getItem(key)` with a fallback default is the stored value when it is non-empty and the default when it is missing or empty |
| `Storage.Store.GetItem` | main.js:11 | `getItem` finds a value exactly when the key is stored, and then it is the stored value |
| `Storage.Store.SetItem` | main.js:21 | `setItem` stores the value under the key and changes no other key |
| `Strings.Split` | main.js:61 | `split` gives at least one piece and no piece contains the separator |
| `Strings.JoinSplit` | main.js:61 | joining the pieces of a split with the separator gives back the original string |
| `Strings.SplitJoin` | main.js:61 | splitting a join of separator-free pieces gives back exactly those pieces, so the key's segments are recovered |
| `Strings.LastSegment` | main.js:200 | `split(...).pop()` is one of the split's pieces, so it holds no separator |
| `Strings.LastSegmentIsSuffix` | main.js:200 | `split('/').pop()` is the longest `/`-free suffix of the path: it ends the path and is the whole path or preceded by `/` |
| `Strings.LastSegmentUnique` | main.js:200 | that suffix property determines the last segment uniquely |
| `Strings.Upper` | main.js:74 | upper-casing keeps the length, maps each character by `UpperChar` and leaves no lower-case ASCII letter |
| `Strings.UpperIdempotent` | main.js:74 | upper-casing an upper-cased label changes nothing |
| `Translations.Step` | main.js:61 | `obj?.[k]` finds a value exactly when the current node is an object with `k` as an own key, and then it is that member |
| `Translations.Walk` | main.js:61 | the `reduce` over the segments finds a value only from a table, and its first segment must be an own key of that table |
| `Translations.WalkFromNone` | main.js:61 | once a step has found nothing, the rest of the reduction finds nothing |
| `Translations.WalkAppend` | main.js:61 | the reduction over a concatenated path is the reduction over the second part started where the first part ended |
| `Translations.WalkFindsIffAllPresent` | main.js:60-62 | the dotted lookup finds a value if and only if every segment is present, as an own key, in the object reached by the segments before it |
| `Translations.NestedTranslation` | main.js:60-62 | `getNestedTranslation(key)` finds a value if and only if every segment of `key.split('.')` is an own key of the object reached by the segments before it |
| `Translations.EmptyTableFindsNothing` | main.js:33 | the empty starting table finds nothing for any key |
| `Translations.NestedTranslationOfJoin` | main.js:60-62 | looking up the key `a.b.c` walks exactly the segments `a`, `b`, `c` |
| `Translations.HalloExample` | main.js:60-62 | in `{"a": {"b": "Hallo"}}` the key `a.b` finds `"Hallo"` and `a.c` finds nothing |
| `Translations.TextFor` | main.js:55-56 | an element's text is replaced only by a truthy lookup result: never by nothing or an empty string; a string is written as is, an object as `[object Object]` |
| `Language.InitialLanguage` | main.js:31 | the starting language is the stored value when it is non-empty and `de` otherwise; it is never empty |
| `Language.NextLanguage` | main.js:65 | the toggle yields `en` exactly from `de` and `de` from anything else |
| `Language.NextLanguageInvolution` | main.js:65 | toggling twice from `de` or `en` comes back to it |
| `Language.AfterLoad` | main.js:44-50 | the table is replaced by a successful parse and is exactly the old table after a non-ok response or a rejection |
| `Language.Retexted` | main.js:54-56 | one element keeps its key; its text is left alone when nothing truthy is found and otherwise becomes the found text |
| `Language.Applied` | main.js:52-58 | `applyTranslations` keeps every key; an element with nothing found is unchanged, and otherwise its text becomes the found value |
| `Language.AppliedIdempotent` | main.js:52-58 | applying the same table twice changes nothing beyond the first application |
| `Language.FailedFirstLoadKeepsTexts` | main.js:33-58 | when the first load fails, applying the still empty table leaves every element with its markup text |
| `Language.FailedLoadKeepsTexts` | main.js:44-58 | a failed load followed by re-applying the table changes no element text |
| `Language.LabelFor` | main.js:72-75 | the button label, when it exists, becomes the current language upper-cased character by character; a missing label stays missing |
| `Language.LabelAfterToggle` | main.js:64-75 | after a toggle an existing label reads `DE` or `EN`, whatever language was stored before |
| `Language.LanguageManager.constructor` | main.js:30-35 | the language starts as `InitialLanguage` of the stored value and the table starts empty |
| `Language.LanguageManager.Init` | main.js:37-42 | the first load's outcome decides the table, the table is applied to every element, the label is set |
| `Language.LanguageManager.LoadTranslations` | main.js:44-50 | the table after a load is `AfterLoad` of the old table; nothing else changes |
| `Language.LanguageManager.ApplyTranslations` | main.js:52-58 | the elements become `Applied` of the table to their old state |
| `Language.LanguageManager.UpdateLangButton` | main.js:72-75 | the label becomes `LabelFor` the current language |
| `Language.LanguageManager.ToggleLanguage` | main.js:64-70 | the language becomes `NextLanguage`, is stored under `language`, the load outcome decides the table, which is applied, and the label follows |
| `Theme.NextTheme` | main.js:17-19 | the toggle yields `dark` exactly when the attribute is `light`, and `light` otherwise, including when it is absent |
| `Theme.SystemTheme` | main.js:12 | a change event asks for `dark` exactly when the system prefers dark, and for `light` otherwise |
| `Theme.AfterSystemChange` | main.js:10-14 | a system change leaves the theme alone when a non-empty theme is stored and applies the system theme otherwise |
| `Theme.StoredChoiceWins` | main.js:10-14 | once a choice is stored, no run of system changes alters the applied theme |
| `Theme.UnstoredFollowsSystem` | main.js:10-14 | with no choice stored, the theme is that of the last system change |
| `Theme.ToggleTwice` | main.js:17-22 | toggling twice from `light` or `dark` comes back to it; from no attribute it ends on `dark` |
| `Theme.ThemeManager.constructor` | main.js:2-6 | the constructor changes neither the store nor the attribute |
| `Theme.ThemeManager.ApplyTheme` | main.js:24-26 | the attribute becomes the given theme |
| `Theme.ThemeManager.ToggleTheme` | main.js:17-22 | the attribute becomes `NextTheme` of the old one, the store gains exactly that value under `theme`, and the stored theme equals the applied one |
| `Theme.ThemeManager.OnSystemChange` | main.js:10-14 | the attribute becomes `AfterSystemChange`; a persisted choice stays applied |
| `Navigation.Flip` | main.js:109-112 | toggling a marker inverts it on an existing element and leaves a missing element missing |
| `Navigation.Clear` | main.js:114-117 | removing a marker leaves it off on an existing element and a missing element missing |
| `Navigation.IsOpen` | main.js:101-103 | the menu is open only when the panel exists (and carries the marker); a page without the panel never reports it open |
| `Navigation.IsInside` | main.js:105-107 | a click elsewhere is never inside, and nothing is inside when neither the panel nor the toggle exists |
| `Navigation.Toggled` | main.js:109-112 | `toggleMenu` keeps the markers in step and opens the menu exactly when the panel was closed |
| `Navigation.Closed` | main.js:114-117 | `closeMenu` leaves the menu closed, the markers in step and both markers cleared |
| `Navigation.AfterDocumentClick` | main.js:93-95 | a document click closes the menu only when it is open and the click is outside both the toggle and the panel; a click inside never changes anything |
| `Navigation.AfterKey` | main.js:96-98 | a key press closes the menu only when it is Escape and the menu is open; anything else changes nothing |
| `Navigation.CloseIdempotent` | main.js:114-117 | closing a closed menu changes nothing |
| `Navigation.ToggleTwice` | main.js:109-112 | toggling twice restores both markers |
| `Navigation.EventsKeepSync` | main.js:86-117 | every handler keeps the two markers in step if they were |
| `Navigation.MobileNav.constructor` | main.js:79-83 | the markers start as the page has them |
| `Navigation.MobileNav.IsMenuOpen` | main.js:101-103 | `isMenuOpen` holds only when the panel exists |
| `Navigation.MobileNav.ToggleMenu` | main.js:109-112 | the new markers are `Toggled` of the old |
| `Navigation.MobileNav.CloseMenu` | main.js:114-117 | the new markers are `Closed` of the old |
| `Navigation.MobileNav.OnToggleClick` | main.js:86-89 | a click on the toggle toggles the menu and does not reach the document listener |
| `Navigation.MobileNav.OnDocumentClick` | main.js:93-95 | the new markers are `AfterDocumentClick` of the old |
| `Navigation.MobileNav.OnLinkClick` | main.js:90-95 | a click on a link of an existing panel closes the menu, and the bubbled document click then changes nothing |
| `Navigation.MobileNav.OnKeyDown` | main.js:96-98 | the new markers are `AfterKey` of the old |
| `Scrolling.ThresholdExamples` | main.js:141 | the navbar counts as scrolled exactly past 20 pixels: offsets 19 and 20 are not scrolled, 20.5 and 21 are |
| `Scrolling.Elements` | main.js:159-168 | the animated elements are exactly the indices below their count |
| `Scrolling.IntersectingMembers` | main.js:146-153 | an element is revealed by a callback exactly when one of its entries reports it intersecting |
| `Scrolling.ScrollEffects.constructor` | main.js:121-138 | `ticking` starts false with no frame pending, and every animated element is hidden and watched |
| `Scrolling.ScrollEffects.ObserveElements` | main.js:145-169 | every animated element becomes hidden and watched and stops being revealed; the invariant holds |
| `Scrolling.ScrollEffects.OnScroll` | main.js:128-136 | after a scroll event exactly one frame callback is pending; while `ticking`, nothing new is scheduled |
| `Scrolling.ScrollEffects.HandleScroll` | main.js:140-143 | an existing navbar's marker is set exactly when `scrollY > 20` and cleared otherwise; a missing navbar stays missing |
| `Scrolling.ScrollEffects.OnFrame` | main.js:130-133 | running the pending callback updates the navbar marker, clears `ticking` and leaves no callback pending |
| `Scrolling.ScrollEffects.OnIntersect` | main.js:146-153 | the intersecting targets are revealed and unwatched, nothing is re-hidden or re-watched, and no revealed element stays watched |
| `ActiveNavigation.CurrentPage` | main.js:200 | the page name is never empty and has no `/`; it is `index.html` for an empty path or one ending in `/`, and the last path segment otherwise |
| `ActiveNavigation.CurrentPageExamples` | main.js:200 | the empty path, `/`, `/team.html` and `/site/team.html` give `index.html`, `index.html`, `team.html` and `team.html` |
| `ActiveNavigation.Marked` | main.js:201-205 | a link whose `href` is the page gets the marker; every other link is untouched, and no `href` changes |
| `ActiveNavigation.MarkedExactly` | main.js:201-205 | on links without markers, exactly those whose `href` equals the page end up marked |
| `ActiveNavigation.Init` | main.js:199-207 | the links become `Marked` for the page name of the path |
| `Donation.NoneMarked` | main.js:250-254 | the reset leaves every field unmarked |
| `Donation.MarkOnly` | main.js:260-263 | after a successful copy, exactly the clicked field is marked |
| `Donation.AfterCopy` | main.js:256-265 | an empty text, an already marked field or a failed write changes no marker; a successful copy leaves exactly the clicked field marked |
| `Donation.AfterCopyKeepsAtMostOne` | main.js:256-265 | a copy never leaves two fields marked |
| `Donation.CopyAgainIsNoOp` | main.js:258 | copying a field right after a successful copy of it does nothing |
| `Donation.DonateModal.constructor` | main.js:211-214 | the constructor changes no marker: the modal's marker, the fields' "copied" markers, the page overflow and the clipboard are as the page has them |
| `Donation.DonateModal.IsOpen` | main.js:235-237 | `isOpen` holds only when the modal exists |
| `Donation.DonateModal.ResetCopyButtons` | main.js:250-254 | every "copied" marker is cleared |
| `Donation.DonateModal.Open` | main.js:239-243 | opening clears every marker, marks an existing modal and sets the page overflow to `hidden` |
| `Donation.DonateModal.Close` | main.js:245-248 | closing unmarks the modal and resets the page overflow to the empty string |
| `Donation.DonateModal.OnKeyDown` | main.js:227-229 | Escape closes the modal only while it is open; anything else changes nothing |
| `Donation.DonateModal.OnModalClick` | main.js:224-226 | on an existing modal, a click on the backdrop itself closes the modal; a click on its content changes nothing |
| `Donation.DonateModal.CopyToClipboard` | main.js:256-265 | the markers become `AfterCopy`, the clipboard receives the text only on a write that happens and succeeds, and at most one field stays marked |

## Left out

- Listener registration, `DOMContentLoaded` start-up and DOM queries (main.js:9, 40, 86-98, 217-232, 268-276): each handler is a method called on the modelled state, and the elements a query would return are fields or arguments.
- `fetch`, `response.json()`, `navigator.clipboard` and `matchMedia`: their outcomes are method parameters (`Fetched`, `written`, `prefersDark`), and the clipboard completion is taken as atomic. Overlapping toggles or copies whose asynchronous completions interleave are not modelled.
- The donate triggers (`[data-donate]`, preventing the default action) and the `.modal-close` button are plain calls of `Open` and `Close`.
- `Translations.Step`: a step into a string leaf finds nothing, whereas JavaScript would index the string's characters or read `length`; translation resources holding arrays, numbers, booleans or `null` are not modelled; and key segments are assumed not to name properties every object inherits (`constructor`, `toString`, `valueOf`, `hasOwnProperty`, `__proto__`, ...), which `obj?.[k]` would find even in the empty table and whose values `applyTranslations` would write as text.
- `Donation.DonateModal.constructor`: the page's markup is assumed to mark at most one copy field "copied" when the widget starts; the invariant that at most one field is marked rests on that.
- `Strings.Upper`: upper-cases ASCII letters only; the full Unicode case mapping of `toUpperCase` is not modelled.
- `Scrolling.ScrollEffects.OnIntersect`: the visibility decision of the intersection observer (the 10% threshold and the 30-pixel root margin) is an input; the browser's promise to deliver entries only for watched elements is not assumed.
- The staggered transition strings (`index * 0.03` seconds) and the `transform` values are reduced to "hidden" and "revealed".
- `SmoothScroll` (main.js:172-192) is not part of this model: its work is scroll geometry in floating point.
- Element containment for `isClickInside` is reduced to where a click landed: the toggle, the panel or elsewhere.
- CSS, the translation content and the HTML markup are outside the code.
