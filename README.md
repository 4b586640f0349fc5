# Page widgets of av-bondarenko.github.io, modelled in Dafny

This project models the client-side behaviour of two scripts of the site:

- **404.js**, class `TextMorpher`: a glitch animation for the 404 title. A cursor
  moves cyclically through the characters of the text. On every tick the
  morpher looks, from the cursor and wrapping around once, for the next
  character that has an entry in the replacement table. It shows the text with
  only that character substituted and moves the cursor past it. If no
  character of the text has an entry, it shows the original text and pauses.
  Around this sit `start`/`stop`/`pause`/`resume`, `setSpeed`, `setText` and the
  table updates `addReplacement`/`removeReplacement`.
- **index.js**, the front page: the `Storage` helper over `localStorage`, the
  theme switch (`ThemeManager`), the language switch (`LanguageManager`) and the
  typewriter effect (`TypewriterManager`).

Files and modules:

| file | module | models |
|---|---|---|
| wrappers.dfy | `Wrappers` | `Option` (for `null`/`undefined`) and `Min` |
| morph_text.dfy | `MorphText` | the pure logic of 404.js: the table built from the list, the list filter, the cyclic scan, the morphed text |
| morpher.dfy | `Morpher` | the `TextMorpher` class, its fields and its methods |
| storage.dfy | `KeyValue` | `Storage.get`/`Storage.set` over an abstract store |
| theme.dfy | `Theme` | `ThemeManager` over the body's class set |
| language.dfy | `Language` | `LanguageManager` over the `[data-lang]` elements and the two flags |
| typewriter.dfy | `Typewriter` | `TypewriterManager`, its frames and its markup |

How the environment is represented:

- The page element of the morpher is the field `display`. Every "show" writes it.
- Timers are abstract. `setInterval` returns a fresh positive handle, which joins
  `liveIntervals`. `clearInterval(id)` removes the handle `id` (nothing for `null`).
  A tick of a live interval is a call of `TextMorpher.Tick`. The pause's
  `setTimeout` is counted in `pendingRestarts`, and its callback is
  `TextMorpher.PauseElapsed`. The typewriter's frame timeout is
  `TypewriterManager.TimerFired`.
- `localStorage` is a `Storage` object: a map of items, plus `readable` and
  `writable` flags that say whether `getItem`/`setItem` throw.
- The body's class list is a `set<string>`. The `style.display` of each
  `[data-lang]` element is an `array<bool>` (true for `block`). Each flag is
  `hasFlag…` (the element exists) plus `flag…Shown`. An output element of the
  typewriter is an `Output` object with its `data-text` attribute and its `innerHTML`.

Behaviour of the code worth knowing:

- The scan wraps around, so the restore-and-pause branch runs only when NO
  character of the text is replaceable. With text "шаг" and table {ш→#, а→%},
  the ticks show "#аг", "ш%г", "#аг", … and never pause (`Morpher.ShaExample`).
- `stop()` followed by `start()` keeps the cursor (`Morpher.StopThenStartKeepsCursor`).
- `pauseOnOriginal <= 0` keeps the interval running and the cursor unchanged.
  No clamping happens.
- Replacement targets are strings. An empty target is falsy, so the character is
  shown unchanged (`MorphText.Glyph`).

## Model

| member | source | states |
|---|---|---|
| MorphText.BuildMapLastWins | 404.js:25-27 | a key of the table is exactly the `from` of some list entry, and its value is the `to` of the last entry with that `from` (a later duplicate overrides an earlier one) |
| MorphText.BuildMapAppend | 404.js:169-172 | appending an entry to the list sets its key in the table built from the list |
| MorphText.WithoutFrom | 404.js:176 | the filtered list is no longer than the original and holds exactly the entries whose `from` differs; a list with no entry for the key is returned unchanged |
| MorphText.WithoutFromAppend | 404.js:176 | filtering a concatenation filters each part, so the kept entries stay in their order with their duplicates |
| MorphText.BuildMapWithoutFrom | 404.js:174-177 | the table built from the filtered list is the old table with the key deleted, so deleting the key and filtering the list keep table and list in agreement |
| MorphText.FirstOffset | 404.js:104-110 | the scan stops at the first step whose character is a key, and every step before it holds a non-key |
| MorphText.NextReplaceable | 404.js:100-113 | the result is -1 or an index into the text whose character is a key |
| MorphText.NextReplaceableNone | 404.js:100-113 | the scan returns -1 exactly when no character of the text is a key, including the empty text |
| MorphText.NextReplaceableIsFirst | 404.js:100-113 | no key lies cyclically closer to the cursor than the returned index |
| MorphText.MorphedTextShape | 404.js:115-122 | the morphed text is the original with only the cursor position replaced by the table's entry for that character, or the character itself when the entry is missing or empty, and it is the original when the cursor is outside the text |
| MorphText.MorphedTextDiffersAtCursorOnly | 404.js:115-122 | with a one-character target the morphed text has the original's length, equals it at every other position, and shows the target (or the original character for an empty target) at the cursor |
| Morpher.TextMorpher.constructor | 404.js:2-40 | the object starts with the text shown, cursor 0, not running, no interval, and the table built from the list |
| Morpher.TextMorpher.Animate | 404.js:76-80 | a new handle that was not live becomes live and is stored in `intervalId` |
| Morpher.TextMorpher.Start | 404.js:42-47 | when already running nothing changes; otherwise the morpher runs with one new live interval; the cursor is kept |
| Morpher.TextMorpher.Stop | 404.js:49-60 | the interval is cleared and `intervalId` is null, the morpher is not running, the original text is shown, and the cursor is kept |
| Morpher.TextMorpher.Pause | 404.js:62-68 | like `Stop`, but the display keeps the text it showed |
| Morpher.TextMorpher.Resume | 404.js:70-74 | starts only when not running; cursor and display are kept |
| Morpher.TextMorpher.FindNextReplaceableChar | 404.js:100-113 | the loop returns the cyclic first key index from the cursor, and -1 exactly when no character is a key |
| Morpher.TextMorpher.ShowOriginalWithPause | 404.js:124-137 | the original text is shown; with a positive pause the interval is cleared (`intervalId` keeps the stale handle) and a restart is scheduled; otherwise no timer changes |
| Morpher.TextMorpher.PauseElapsed | 404.js:130-135 | when the pause callback fires while running, the cursor goes back to 0 and a new interval starts; otherwise nothing but the pending count changes |
| Morpher.TextMorpher.Tick | 404.js:82-98 | with no key in the text: the original is shown, the cursor is kept, and with a positive pause the interval is cleared and a restart scheduled; otherwise the text morphed at the found index is shown and the cursor becomes `(target + 1) % length`; the cursor stays inside the text (0 for the empty text) |
| Morpher.TextMorpher.SetSpeed | 404.js:146-152 | the speed is stored; while running the old interval is cleared and a new one started; cursor, display and running flag are kept |
| Morpher.TextMorpher.SetText | 404.js:154-167 | text and characters become the new text, the cursor is 0, the new text is shown, and the running flag equals its value before the call, with a fresh interval when running |
| Morpher.TextMorpher.AddReplacement | 404.js:169-172 | the table key is set (last write wins), the pair is appended to the list, and table and list stay in agreement |
| Morpher.TextMorpher.RemoveReplacement | 404.js:174-177 | the table key is deleted, every list entry with that `from` is dropped and the others are kept, and table and list stay in agreement |
| Morpher.StopThenStartKeepsCursor | 404.js:42-60 | `stop` then `start` leaves the morpher running at the same cursor, showing the original text |
| Morpher.PauseThenResumeKeepsCursor | 404.js:62-74 | `pause` then `resume` leaves the morpher running at the same cursor and display |
| KeyValue.ItemOr | index.js:5 | the result is the default or the stored item; a non-empty stored item is always returned; a result other than the default is never the empty string |
| KeyValue.Storage.Get | index.js:3-10 | a read that throws gives the default; otherwise the fallback of `ItemOr`; with a string default the result is `ReadOr` |
| KeyValue.ReadOr | index.js:3-10 | `Storage.get` with a string default, as `loadSavedTheme` and the language manager call it: the result is the default or a non-empty stored item, and a non-empty stored item is returned whenever the read succeeds |
| KeyValue.Storage.Set | index.js:12-18 | the item is written, or nothing changes when the write throws |
| KeyValue.ItemOrAfterSet | index.js:3-18 | reading back a written value gives it back, except that the empty string reads as the default |
| KeyValue.ItemOrOtherKey | index.js:3-18 | writing one key does not change what another key reads |
| Theme.ThemeClass | index.js:55 | `${theme}-theme` is `light-theme` exactly for "light" and `dark-theme` exactly for "dark", and `classList.add` accepts it exactly when the theme holds no ASCII whitespace |
| Theme.WithTheme | index.js:53-56 | after `setTheme(theme)` the body has `${theme}-theme`; every other class is present exactly when it was present before and is neither theme class |
| Theme.ToggleTarget | index.js:41-48 | the toggle chooses "dark" exactly when the body has `light-theme`, and "light" otherwise (also with no theme class) |
| Theme.ToggleTwiceFromLight | index.js:41-56 | from a light body, one toggle gives a dark body without `light-theme`, and a second toggle restores the class set |
| Theme.ThemeManager.constructor | index.js:23-39 | construction applies the saved theme to the body and saves it; when the saved theme holds ASCII whitespace, `classList.add` throws, the body is left with neither theme class and nothing is saved |
| Theme.ThemeManager.SetTheme | index.js:53-57 | `ok` is true exactly when the theme holds no ASCII whitespace; then the body classes become `WithTheme` of the old ones and "theme" is saved when storage is writable; otherwise `classList.add` throws after both theme classes were removed and the save is skipped |
| Theme.ThemeManager.ToggleTheme | index.js:41-51 | the body classes become `WithTheme` of the old ones with the toggle's choice, which is saved |
| Theme.ThemeManager.LoadSavedTheme | index.js:59-62 | the saved theme (default "light") is applied and saved back, or, when it holds ASCII whitespace, `setTheme` throws with both theme classes removed and nothing saved |
| Language.Toggled | index.js:118-121 | the toggle gives "ru" exactly from "en", and "en" from every other language |
| Language.ToggledTwice | index.js:118-121 | on "en" and "ru" the toggle is its own inverse; any other language ends at "ru" after two toggles |
| Language.LanguageManager.constructor | index.js:81-97 | construction reads the saved language and shows it as `SetLanguage` does |
| Language.LanguageManager.SetLanguage | index.js:99-113 | `currentLang` is the language; each `[data-lang]` element is shown exactly when its tag equals it; an existing en flag is shown iff it is "en", an existing ru flag iff "ru"; "language" is saved when storage is writable |
| Language.LanguageManager.ToggleLanguage | index.js:118-121 | the page shows `Toggled` of the old language, which is saved |
| Typewriter.HighlightLength | index.js:219-222 | the number of highlighted characters is 8 for "en", 6 for "ru" and 0 for any other language |
| Typewriter.SpansAt | index.js:307-308 | the span markup has one fixed-width span per character, and character k sits in the k-th span, in order |
| Typewriter.FrameGrows | index.js:299-315 | each frame is the previous one plus exactly one piece (the next character, in a span while within the highlight length); past the end of the text frames stop growing |
| Typewriter.LastFrame | index.js:303-312 | the frame at index the text's length shows every character, the first `min(h, the text's length)` of them in spans |
| Typewriter.FrameWithoutHighlight | index.js:307-311 | a language without a highlight word gets the bare prefix, with no spans |
| Typewriter.TypewriterManager.constructor | index.js:208-241 | construction runs `init`, which starts typing in the current language: without that language's output element the manager stays idle with index 0 and empty text; otherwise the text is its `data-text` or "", typing is on, the output is empty and the index is 1 |
| Typewriter.TypewriterManager.OutputFor | index.js:260-262 | the English output element for "en", the Russian one for every other language |
| Typewriter.TypewriterManager.BuildHtmlContent | index.js:299-315 | the loop's markup is the frame: the first `min(index, the text's length)` characters in order, the first `min(index, the text's length, h)` of them wrapped in green spans, the rest bare and unescaped |
| Typewriter.TypewriterManager.TypeWriter | index.js:280-290 | when typing is off or the index is past the text, typing stops and nothing is rendered; otherwise the current frame is rendered and the index grows by exactly 1; the index never exceeds one past the text's length |
| Typewriter.TypewriterManager.TimerFired | index.js:292-296 | the frame timeout types on only while typing |
| Typewriter.TypewriterManager.StartTyping | index.js:264-274 | nothing changes without an output element; otherwise the text is `data-text` or "", typing is on, and after the first (empty) frame the output is empty and the index is 1 |
| Typewriter.TypewriterManager.StopTyping | index.js:276-278 | typing is off |
| Typewriter.TypeAll | index.js:280-296 | after k timer callbacks from a fresh start the output shows frame `min(k, the text's length)`; typing stays on exactly while k <= the text's length; the index is at most one past the text's length |

## Left out

- Real timing: the delays of `setInterval`/`setTimeout` (404.js:76-80, 129-135; index.js:292-296). Ticks and callbacks are explicit method calls, and the model does not constrain their order.
- Timer interleavings are not verified. Calling `resume` while the pause callback is pending can leave two intervals live (404.js:129-135 against 42-47). A stale typewriter timeout keeps typing after a language change (index.js:243-247, 292-296). The model can represent both; no property about them is proved.
- The DOM itself (`getElementById`, `textContent`, `innerHTML`, `classList`, `style.display`, `querySelectorAll`) is replaced by the fields described above.
- The missing-element path of `TextMorpher.init` (404.js:33-35) is not modelled. It refers to an undefined `elementId` and would throw, so a constructed morpher always has its element, and `updateDisplay` (404.js:139-143) always writes.
- The options merge in the constructor (404.js:6-16) is not modelled. The constructor takes the already-merged speed, pause and replacement list. The default list (ш→#, б→@, ч→&, а→%) and the defaults 250 and 1000 are not modelled.
- `options.replacements` may be the caller's own array, which `push` then mutates (aliasing). The model keeps its own list.
- Text is a `seq<char>` of whole characters. Both scripts count UTF-16 code units: `split('')` (404.js:22, 159), and `fullText.length`, `fullText[i]` and `highlightWord.length` (index.js:281, 303-307). With a character outside the Basic Multilingual Plane the source shows or types half a surrogate pair per step and can split a pair across two spans; the model does not. A `from` key that is not a single character, which a character lookup never matches, is not representable.
- `playSound` (index.js:64-76), the `languageChanged` event dispatch (index.js:115) and `getCurrentLanguage` (index.js:123-125) are not modelled.
- `TypewriterManager.updateDisplay` (index.js:249-258), which sets the visibility of the `pre` elements and cursors, is not modelled. `setupInitialState` (index.js:237-241) is modelled only through its `startTyping` call, in the constructor. The `languageChanged` listener and `onLanguageChange` (index.js:228-231, 243-247) are not modelled; they amount to `StopTyping` then `StartTyping`.
- Theme.ThemeManager.constructor: when the saved theme holds ASCII whitespace, the source's `new ThemeManager()` throws and `AppController.init` (index.js:327-338) catches it and never builds the language, popup and typewriter managers. The model returns the object in the state the exception leaves the body and storage in; the abandoned set-up is not modelled.
- Typewriter.HighlightLength: gives 0 for every language other than "en" and "ru". In the source, `highlightWords[lang]` (index.js:301, 307) for a language named like an `Object.prototype` member yields that inherited member, and a function's `length` is its parameter count. So "toString", "valueOf" and "toLocaleString" give 0, but "constructor", "hasOwnProperty", "isPrototypeOf", "propertyIsEnumerable", "__lookupGetter__" and "__lookupSetter__" give 1, and "__defineGetter__" and "__defineSetter__" give 2. For a saved language with such a name, the source wraps the first one or two characters in spans where the model shows none. Property lookup through the prototype chain is not modelled.
- `PopupManager`, `AppController`, the `DOMContentLoaded`/`visibilitychange`/`error` wiring, the `window.titleMorpher` global, `createTextMorpher` and `module.exports` (index.js:129-204, 318-356; 404.js:180-221) are page glue and are not modelled.
- The console warnings of `Storage` and `init` are not modelled.
