# Mini chat widget: speech preferences and speech output

The widget's script keeps two settings in the browser's string-keyed store
(whether replies are spoken, and the voice language, mirrored in a language
`<select>`) and speaks text through the host's speech synthesis. This project
models three parts of it:

- **Preference encoding.** The speak flag is stored as `'1'`/`'0'` and read
  back as "the stored value is exactly `'1'`". The voice language is read
  through a fallback chain: the stored value if non-empty, else the select's
  value if non-empty, else `en-US`. Module `Preferences` holds the pure
  encoding and a class `PreferenceStore` whose fields are the store (a
  `map<string, string>`) and the select's value.
- **Voice selection** (`pickVoice`). The first voice whose language equals the
  target, else the first whose language starts with the target's text before
  its first `-`, else the first voice, else none. The fallback is a plain
  character-prefix test, so target `en-US` also takes a voice tagged `eng-X`,
  and an empty target matches every voice. Module `VoiceSelection` gives the
  rule as functions and proves it equal to a declarative statement of the
  priority order.
- **Speak deferral** (`speak`). Without synthesis nothing happens. With a
  non-empty catalog a voice is picked and the utterance is spoken at once.
  With an empty catalog the utterance is parked in the single
  `onvoiceschanged` handler slot and spoken when that event fires. Module
  `Speech` holds the state as a value (`Synth`: availability, catalog, handler
  slot, log of spoken utterances), one step function per event, and a class
  `Synthesizer` whose methods update the same state in place and are proved
  to follow the step functions.

Two behaviours of the code are kept as written and proved as lemmas. A second
deferred call replaces the first handler, so the first utterance is never
spoken. The handler is never removed, so every later `voiceschanged` event
speaks the same utterance again. A caller would expect a deferred utterance
to be spoken exactly once; the code loses the first of two and repeats it on
every event, and the model follows the code.

## Model

| member | source | states |
|---|---|---|
| `Preferences.EncodeFlag` | script.js:7-11 | reading back what `setSpeakEnabled(on)` writes gives `on`, for both values |
| `Preferences.FlagOffUnlessOne` | script.js:8 | `DecodeFlag`, the `=== '1'` test: an absent key and every stored string other than `'1'` read as off |
| `Preferences.ResolveVoiceLang` | script.js:14-16 | the language is the stored value if non-empty, else the select's value if non-empty, else `en-US`; it is never empty |
| `Preferences.PreferenceStore.SpeakEnabled` | script.js:7-9 | on exactly when the flag's key is present and holds `'1'` |
| `Preferences.PreferenceStore.SetSpeakEnabled` | script.js:10-13 | writes only the flag's key; afterwards the flag reads back as `on` and the voice language reads as before |
| `Preferences.PreferenceStore.VoiceLang` | script.js:14-16 | the stored language if non-empty, else the select's value if non-empty, else `en-US`; never empty |
| `Preferences.PreferenceStore.SetVoiceLang` | script.js:17-20 | stores `v` and sets the select to `v`; afterwards the language reads as `v` when `v` is non-empty and as `en-US` when it is empty; the flag reads as before |
| `VoiceSelection.FirstMatch` | script.js:31 | `find` as an index: the result satisfies the test and no earlier element does; nothing is returned only when no element does |
| `VoiceSelection.PrimarySubtag` | script.js:31 | `lang.split('-')[0]` is a prefix of `lang` without `-`, and is all of `lang` or stops just before its first `-` |
| `VoiceSelection.PickIndex` | script.js:29-33 | a position is chosen exactly when the catalog is non-empty, and it lies inside the catalog |
| `VoiceSelection.PickVoice` | script.js:29-33 | a voice is chosen exactly when the catalog is non-empty, and the chosen voice is in the catalog |
| `VoiceSelection.PickIndexIsChoice` | script.js:31 | position `i` is chosen if and only if it is the first exact match when one exists, else the first prefix match when one exists, else 0 |
| `VoiceSelection.ExactBeatsEarlierPrefix` | script.js:31 | the first exact match is chosen even when an earlier voice matches by prefix |
| `VoiceSelection.FirstPrefixWithoutExact` | script.js:31 | with no exact match, the first voice starting with the target's primary subtag is chosen |
| `VoiceSelection.FirstVoiceWithoutMatch` | script.js:31 | with no exact or prefix match, the catalog's first voice is chosen |
| `VoiceSelection.PrefixIgnoresSubtagBoundary` | script.js:31 | target `en-US` takes a voice tagged `eng-X` over the first voice: the fallback is a character-prefix test |
| `VoiceSelection.EmptyTargetTakesFirst` | script.js:31 | an empty target prefix-matches every voice, so the first voice is chosen when no voice has the empty language |
| `Speech.Voiced` | script.js:29-33 | `pickVoice` sets the utterance's voice to the picked catalog voice, leaves the utterance unchanged for an empty catalog, and never changes text or language |
| `Speech.SpeakStep` | script.js:24-43 | `speak` changes neither availability nor the catalog |
| `Speech.VoicesChangedStep` | script.js:30-38 | the event installs the new catalog; without a handler it speaks nothing and installs none; with one, it re-picks the utterance's voice from the new catalog, keeps the handler holding that utterance and appends it to the log |
| `Speech.SpeakUnavailable` | script.js:26 | without synthesis, `speak` changes nothing |
| `Speech.SpeakImmediately` | script.js:40-42 | with a non-empty catalog, `speak` appends exactly one utterance with the picked voice and leaves the handler slot unchanged |
| `Speech.SpeakDeferred` | script.js:35-39 | with an empty catalog, `speak` appends nothing and sets the handler slot to this utterance, replacing any earlier one |
| `Speech.DeferredSpokenOnVoicesChanged` | script.js:35-38 | a deferred utterance is spoken at the next event, with the voice picked from the new catalog, or with no voice (the host default) when that catalog is empty |
| `Speech.SecondDeferralReplacesFirst` | script.js:36 | two deferred calls followed by the event speak only the second utterance |
| `Speech.EveryEventSpeaksAgain` | script.js:36-38 | with a handler installed, each later event appends one more copy of its utterance, keeping the earlier log, and the handler stays installed |
| `Speech.NoHandlerSpeaksNothing` | script.js:35-38 | with no handler installed, any number of events speak nothing and install no handler |
| `Speech.EveryEventRepicksVoice` | script.js:29-38 | each repeated event's copy is the previous copy (the pending utterance for the first) with its voice picked again from that event's catalog |
| `Speech.RepeatedFirePicksFromItsCatalog` | script.js:29-38 | the copy spoken at an event with a non-empty catalog carries the voice the selection rule picks from that catalog |
| `Speech.Synthesizer.Speak` | script.js:24-47 | the object's new state is `SpeakStep` of its old state, and a handler is still only installed when synthesis is available |
| `Speech.Synthesizer.VoicesChanged` | script.js:36-38 | the object's new state is `VoicesChangedStep` of its old state, and a handler is still only installed when synthesis is available |

## Left out

- The DOM element lookups and the speak button's label (script.js:1-3, 12): UI side effects with no logic; the language select is only its `selectValue` field.
- Preferences.PreferenceStore.SetVoiceLang: the `selectValue` field always takes the assigned value, whereas a real `<select>` given a value that matches none of its options selects nothing and then reads as `''`; the language read back is unaffected for a non-empty value, since the stored value comes first in the chain.
- The real `localStorage`, `SpeechSynthesisUtterance` and `speechSynthesis.speak`: host code, replaced by the map, the `Utterance` record and the `spoken` log.
- The start-up calls `setSpeakEnabled(getSpeakEnabled())` and `setVoiceLang(getVoiceLang())` (script.js:21-22): a read followed by a write, covered by the read-back properties of the two setters.
- The default parameter `lang = getVoiceLang` (script.js:24): it binds the function rather than its result. With a non-empty catalog a call without a language throws inside `lang.split`, and the `try`/`catch` logs it. With an empty catalog the call installs the handler, replacing any pending utterance, and the error comes later from inside the handler, outside the `try`, once the catalog is non-empty. The model always takes the language as a string.
- The `try`/`catch` that logs to the console (script.js:44-46): with the language a string nothing in the body throws, and a failure would only log, leaving the state unchanged.
- `getVoices()` answering `null` or `undefined`: treated the same as an empty catalog, as the script does.
- Aliasing of the utterance object: the script mutates one utterance object, so re-picking a voice on a later event also changes the entries already handed to the synthesizer; the model logs a snapshot of the utterance at each hand-off.
- Audio playback, pitch, rate and volume, and the asynchronous timing of `voiceschanged`: the event is an explicit method call with the new catalog.
