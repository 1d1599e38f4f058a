# Portfolio page script: typewriter, tabs and navigation highlight

A Dafny model of the behaviour of the portfolio site's page script `js/main.js` that has
internal logic:

- **Typewriter** (`typewriter.dfy`, module `Typewriter`). Three fixed sentences are typed
  one character at a time into a text element, paused on, deleted one character at a time,
  and the next sentence (cyclically) is started. The four module-level variables
  `sentenceIndex`, `charIndex`, `isDeleting` and `typewriterDelay` are the fields of the
  class `Cycler`, together with the sentences and `display` for the element's text;
  `Cycler.Step` is one call of `typewriter()`. The same transition on values (`Next`,
  `Shown`) carries the multi-step proofs: every reachable state keeps
  `0 <= charIndex <= |sentence|`, the delay is always one of 50, 100, 500, 2000 ms, and from
  the start of sentence i exactly 2n steps show the prefixes of lengths 1..n and n-1..0 and
  land on the start of sentence (i + 1) mod N.
- **JavaScript substring** (`js.dfy`, module `Js`). `String.prototype.substring` clamps
  its bounds and never fails; the step relies on this.
- **Tabs** (`tabs.dfy`, module `Tabs`). A click on a tab button leaves that button as the
  only active one and the panel with id `tab-<data-tab>` as the only active panel. The
  buttons and panels are sequences of records in document order; `TabSystem.Click` clears
  and sets the flags with loops as the handler does.
- **Navigation highlight** (`navigation.dfy`, module `Navigation`). On scroll, the current
  section is the last one in document order with `scrollY >= top - 200` (the empty id when
  there is none), and exactly the links whose href is `#` followed by that id become active.
  `SelectSection` is the loop over the sections; `NavBar.UpdateActiveNav` the whole handler.

Two edge cases of the code are modelled as written:

- An empty sentence is never recognised as fully typed: the check
  `charIndex === currentSentence.length` runs after the increment, so `charIndex` climbs
  for ever, the text stays empty and the next sentence is never reached
  (`Typewriter.EmptySentenceOverruns`). The class therefore requires every sentence to be
  non-empty, which the three literal sentences are (`Typewriter.SentencesWellFormed`).
  The script does not check that the sentence list is non-empty; the list is a fixed
  three-element literal.
- When no section is reached, the current id is the empty string and the highlight then
  marks the links whose href is exactly `#` (`Navigation.NothingReached`).

## Model

| member | source | states |
|---|---|---|
| `Js.Substring` | js/main.js:23-27 | `substring(start, end)` never fails, yields at most the whole string, and is the slice `s[start..end]` when the bounds are in order and inside the string |
| `Js.SubstringFromZero` | js/main.js:23-27 | `substring(0, end)` is the prefix of the clamped length: empty for `end <= 0`, the whole string for `end >= length` |
| `Typewriter.Next` | js/main.js:19-43 | one step keeps the sentence index in `[0, N)`, sets a delay from {50, 100, 500, 2000}, moves `charIndex` by exactly one (down when deleting, up when typing), and changes the sentence index only to `(i + 1) mod N` together with `charIndex = 0`, typing again and the 500 ms pause; a typing step from `charIndex >= 0` never changes the sentence |
| `Typewriter.Shown` | js/main.js:22-30 | in a state of the invariant, the text written is the prefix of the current sentence whose length is the new `charIndex` |
| `Typewriter.StepKeepsInv` | js/main.js:8-43 | with no empty sentence, a step keeps `0 <= charIndex <= |sentence|`, a typing state below the length and a deleting state above 0 |
| `Typewriter.TypingStep` | js/main.js:26-36 | a typing step adds one character, shows that prefix, keeps the sentence, and flips to deleting with the 2000 ms pause exactly when the sentence is complete, else waits 100 ms; the deletion boundary cannot fire in the same step |
| `Typewriter.DeletingStep` | js/main.js:22-25 | a deleting step removes one character and shows that prefix; exactly when nothing is left it flips to typing, advances the sentence cyclically and waits 500 ms, else waits 50 ms |
| `Typewriter.Run` | js/main.js:19-45 | the state after k successive calls of the step, each rescheduled by the previous one; the sentence index stays in range throughout |
| `Typewriter.Displays` | js/main.js:23-27 | the texts written to the element by k successive steps, one per step, in order |
| `Typewriter.RunKeepsInv` | js/main.js:19-45 | any number of steps from a state of the invariant stays in the invariant |
| `Typewriter.Reachable` | js/main.js:14-17 | every state reached from the page-load state `(0, 0, typing)` satisfies the invariant |
| `Typewriter.TypeOut` | js/main.js:26-36 | typing from `c` characters takes `n - c` steps to show the whole sentence, showing the prefixes of lengths `c + 1..n`, and ends deleting with the 2000 ms pause on the same sentence |
| `Typewriter.EraseOut` | js/main.js:39-43 | deleting from `c` characters takes `c` steps, showing the prefixes of lengths `c - 1` down to 0, and ends typing at the start of the next sentence with the 500 ms pause |
| `Typewriter.TypingRun` | js/main.js:26-36 | before the sentence is complete, each typing step stays on the same sentence, keeps typing and moves `charIndex` up by one |
| `Typewriter.DeletingRun` | js/main.js:22-25 | before nothing is left, each deleting step stays on the same sentence, keeps deleting and moves `charIndex` down by one |
| `Typewriter.FullCycle` | js/main.js:19-43 | from `(i, 0, typing)` exactly `2n` steps reach `((i + 1) mod N, 0, typing)` and show the prefixes of lengths 1..n then n-1..0 |
| `Typewriter.NoEarlierReturn` | js/main.js:19-43 | no step strictly between 0 and 2n from `(i, 0, typing)` shows an empty prefix: `charIndex > 0` there, so 2n is the first return to the start of a sentence |
| `Typewriter.Rounds` | js/main.js:41 | the sentences are visited in order: going through m sentences from the start of sentence i lands on the start of sentence `(i + m) mod N`, so after all N the cycle is back at the first |
| `Typewriter.EmptySentenceOverruns` | js/main.js:27-36 | with an empty current sentence the completion check never fires: after k steps `charIndex` is `k` past where it was, still typing on the same sentence, and every text shown is empty |
| `Typewriter.SentencesWellFormed` | js/main.js:8-12 | the page's sentence list is non-empty and has no empty sentence |
| `Typewriter.HiExample` | js/main.js:19-43 | for the script `["Hi"]` four steps show "H", "Hi", "H", "" and return to the start of the same sentence |
| `Typewriter.TwoSentenceExample` | js/main.js:19-43 | for `["A", "BC"]` six steps show "A", "", "B", "BC", "B", "": after the first sentence the second is typed, then the index wraps to 0 |
| `Typewriter.Cycler.constructor` | js/main.js:14-17 | the page-load state: first sentence, nothing typed, typing, delay 100 |
| `Typewriter.Cycler.Step` | js/main.js:19-44 | one call of the step keeps the invariant, moves to `Next` of the old state, and leaves the element showing the prefix of the old current sentence of the new `charIndex` |
| `Tabs.PanelId` | js/main.js:60-68 | the id looked up is `tab-` followed by the clicked button's data-tab, exactly |
| `Tabs.FindPanel` | js/main.js:68 | the panel the lookup by id finds is the first one in document order with that id, and -1 means no panel has it |
| `Tabs.FindPanelByIds` | js/main.js:64-68 | the lookup depends only on the ids, so clearing the active flags first does not change which panel it finds |
| `Tabs.ClickedButtons` | js/main.js:63-67 | after a click on button b, button b is the only active button and every button keeps its data-tab |
| `Tabs.ClickedPanels` | js/main.js:64-68 | after a click, the panel found for `tab-<data-tab>` is the only active panel (none when no panel has that id), and ids are kept |
| `Tabs.ClickedPanelsUnique` | js/main.js:64-68 | when panel ids are unique, a panel is active exactly when its id is the opened one |
| `Tabs.ClickIdempotent` | js/main.js:59-69 | clicking the same button twice leaves the same buttons and panels as clicking once |
| `Tabs.ClickForgetsHistory` | js/main.js:62-68 | what a click leaves does not depend on which button or panel was active before |
| `Tabs.TabSystem.constructor` | js/main.js:55-56 | the page's buttons and panels in document order |
| `Tabs.TabSystem.Click` | js/main.js:59-69 | the handler leaves exactly the clicked button active and exactly the found panel active, and reports whether a panel with the id exists |
| `Navigation.LastReached` | js/main.js:80-87 | the index of the last section with `scrollY >= top - 200`: that section is reached and no later one is; -1 when none is |
| `Navigation.CurrentSection` | js/main.js:78-87 | the id held after the walk: when some section is reached, the id of a reached section after which none is reached; `''` when no section is reached |
| `Navigation.SelectSection` | js/main.js:78-87 | the loop over the sections ends holding the id of the last reached section, or the empty id when none is reached |
| `Navigation.Highlighted` | js/main.js:89-94 | after the highlight a link is active exactly when its href is `#` followed by the current id, and hrefs are kept |
| `Navigation.ScrollMonotone` | js/main.js:80-87 | scrolling further down never selects an earlier section |
| `Navigation.SortedSelection` | js/main.js:80-87 | with sections laid out top to bottom, the sections up to the current one are exactly those whose top is at most `scrollY + 200` |
| `Navigation.HighlightAtMostOne` | js/main.js:89-94 | with distinct hrefs at most one link is active after the highlight |
| `Navigation.NothingReached` | js/main.js:78-94 | above every section the current id is empty and exactly the links whose href is `#` are active |
| `Navigation.NavBar.constructor` | js/main.js:74 | the page's navigation links in document order |
| `Navigation.NavBar.UpdateActiveNav` | js/main.js:77-95 | the scroll handler leaves the links highlighted for the current section of the given layout and scroll position |

## Left out

- Scheduling: `setTimeout` (the 1000 ms wait before the first step and the step rescheduling itself after the stored delay) is host-runtime behaviour; the delay is modelled as a stored value and repeated steps as `Run`.
- The DOM: element lookup by selector, event registration, the `active` class list and `scrollIntoView` are browser plumbing; buttons, panels, sections and links are records with the one attribute each rule reads and an active flag.
- `Tabs.FindPanel`: the lookup by id searches the whole document; the model searches only the tab panels.
- `Tabs.TabSystem.Click`: when no element has the id the page script throws a TypeError after the flags are already changed; the model returns `found = false` with the same flags instead of an exception.
- Missing attributes: `getAttribute` returning null (a button without `data-tab`, a section without `id`) is not modelled; attributes are strings.
- `Navigation.SelectSection`: scroll positions and section tops are whole numbers; the browser may report fractional scroll offsets.
- Strings are sequences of characters; JavaScript's UTF-16 code units are the same for the sentences on the page, which are ASCII.
- Scroll-reveal styling, the IntersectionObserver callback, the parallax effect, the mobile animation duration, the footer year, the scroll-snap toggle and the console banner only set a style or class from browser-supplied geometry, events or clocks and have no logic to state.
- Form submission has no code in the script; it is handled by an external service.
