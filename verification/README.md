# Scroll-story page: the Easter-egg state machines

The page's script is almost entirely animation wiring. This project models
the three parts of it that carry logic of their own, all found in the
`DOMContentLoaded` handler of `script.js`:

- **Keyword typing** (`KeywordBuffer`, with string facts in `Text`). Each
  keydown with a single-letter key appends the upper-cased letter to a
  buffer, drops the oldest character once the buffer is longer than ten,
  and, if the buffer then contains `BLUE` or `SKY`, fires the blue flash and
  empties the buffer. `Step(buffer, key)` returns the new buffer and whether
  the flash fired; `Run` folds it over a sequence of keydown events.
- **BGM play/pause button** (`BgmToggle`). A click plays a paused track and
  shows `PAUSE`, or pauses a playing one and shows `PLAY`.
- **16:20 time sync** (`TimeSync`). On load and every thirty seconds the
  page reads the local clock; at 16:20 it overwrites the time stamp (text,
  colour, shadow) and story title of scene 4 (`#scene4`) with fixed values.
  The clock reading is a parameter, `Poll` folds the check over a sequence
  of readings.

The key name of a keydown event is a `string`. JavaScript measures its
length in UTF-16 code units and Dafny in Unicode scalar values, but the two
guards accept the same keys: the regular expression `/[a-zA-Z]/i` (without
the `u` flag) matches only the 52 ASCII letters, and every such key has
length one in both measures.

## Model

| member | source | states |
|---|---|---|
| KeywordBuffer.Step | script.js:149-172 | a key that is not one ASCII letter leaves the buffer unchanged and fires nothing; for a letter, the flash fires exactly when the appended-and-trimmed buffer contains BLUE or SKY, a flash empties the buffer, otherwise the buffer is the appended-and-trimmed one; after any letter the buffer contains neither keyword; a buffer of at most ten upper-case letters stays one |
| KeywordBuffer.ToUpper | script.js:152 | every ASCII letter becomes an upper-case letter and upper-case letters are left alone |
| KeywordBuffer.UpperIffSameLetter | script.js:152 | a character upper-cases to a given capital exactly when it is that capital or its lower-case letter, so keys match in either case and in no other way |
| KeywordBuffer.Append | script.js:152-157 | from a buffer of at most ten characters, appending and trimming keeps exactly the last ten characters of old buffer plus new letter, in order |
| KeywordBuffer.AppendKeepsRecent | script.js:155-157 | trimming removes only the oldest character: any ending of old buffer plus new letter that fits in ten characters is still the ending of the new buffer |
| KeywordBuffer.HasKeyword | script.js:160 | the two `includes` tests hold exactly when BLUE or SKY occurs as a contiguous substring |
| Text.IncludesIffOccurs | script.js:160 | the left-to-right `includes` scan succeeds exactly when the word occurs at some index |
| KeywordBuffer.MatchEndsAtNewKey | script.js:152-160 | when the buffer held no keyword, the appended buffer contains one exactly when it ends with BLUE or SKY, so every match ends at the key just typed |
| KeywordBuffer.FlashIffKeywordTyped | script.js:151-169 | from a keyword-free buffer, a letter fires the flash exactly when the appended buffer ends with BLUE or SKY |
| KeywordBuffer.TypeLetter | script.js:151-169 | the appended-and-trimmed buffer ends with any ending of at most nine letters the old buffer had, plus the new letter; from a keyword-free buffer a letter other than E or Y fires nothing and the step keeps that buffer |
| KeywordBuffer.RunPreservesInvariant | script.js:149-172 | any sequence of keydown events keeps a buffer of at most ten upper-case letters containing no keyword |
| KeywordBuffer.RunFromEmpty | script.js:146-172 | every buffer reachable from the initial empty buffer has at most ten characters, all upper-case letters, and contains neither BLUE nor SKY |
| KeywordBuffer.TypingPrefix | script.js:151-169 | while the first letters of BLUE or SKY are being typed, the buffer ends with them, holds no keyword, and nothing has fired |
| KeywordBuffer.ContinueKeyword | script.js:151-169 | from a keyword-free buffer ending with the first letters of BLUE or SKY, the next letter of that keyword (not its last) fires nothing and the buffer then ends with one more letter of it |
| KeywordBuffer.CompleteKeyword | script.js:151-169 | from a keyword-free buffer ending with B, L, U (or S, K), a key E (or Y) in either case fires the flash |
| KeywordBuffer.TypingLastLetter | script.js:151-169 | the final letter of BLUE or SKY fires the flash |
| KeywordBuffer.TypingKeywordFlashes | script.js:151-169 | typing B, L, U, E (or S, K, Y) in any case as consecutive keys from any keyword-free buffer fires the flash on the last key and on none before, and leaves the buffer empty |
| KeywordBuffer.Letters | script.js:151-152 | the letters a sequence of keys contributes, after the guard and upper-casing, are all upper-case letters |
| KeywordBuffer.QuietStep | script.js:149-172 | a step that does not flash takes the last ten letters typed to the last ten letters typed including the new key |
| KeywordBuffer.QuietRunKeepsLastLetters | script.js:149-172 | as long as no step fires (`Quiet`), the buffer is exactly the last ten of the starting buffer followed by every accepted letter, upper-cased, in order |
| BgmToggle.Toggle | script.js:82-90 | a click flips the paused flag; from paused the button reads PAUSE, from playing it reads PLAY, so afterwards the label always names the next action |
| BgmToggle.ToggleTwice | script.js:82-90 | two clicks restore the paused flag, and the whole state when the label was consistent |
| BgmToggle.ClicksParity | script.js:82-90 | after n clicks the track is paused exactly when n is even and it started paused, or n is odd and it started playing; after at least one click the label is consistent |
| TimeSync.Check | script.js:131-141 | at 16:20 all four fields hold the fixed synced values; at any other time the scene is unchanged |
| TimeSync.CheckIdempotent | script.js:131-141 | checking twice against the same reading equals checking once |
| TimeSync.CheckChangesOnlyAtSyncTime | script.js:131-141 | the check changes the scene only at 16:20, and never changes an already synced scene |
| TimeSync.PollSyncedIff | script.js:131-143 | after the load check and the timer checks the scene is synced exactly when it already was or some reading showed 16:20; with no such reading nothing changed |

## Left out

- The custom cursor, its rotating diamond and the hover class (script.js:6-37): pixel positions and animation tweens, no logic.
- The intro gate, the volume slider and audio playback itself (script.js:40-79, 93-95): browser audio and animation callbacks. In particular the enter button starts the music without touching the play/pause label.
- BgmToggle.Toggle: the model takes `play()` to succeed. A `play()` refused by the autoplay policy or for an unplayable source returns a rejected promise and leaves `paused` true, while the handler still writes PAUSE.
- BgmToggle.ClicksParity: the label matches the paused flag only while the button alone changes that flag. The flag also changes without a click, and the label is written only on a click (script.js:85, 88): the enter button starts playback, the track can end, media keys or the system's media controls can pause or resume it, and a refused `play()` leaves it paused. None of these is modelled.
- KeywordBuffer.Step: the model assumes every element the handlers look up exists. If the flash overlay were missing, script.js:162 would throw after the append and trim but before script.js:169 empties the buffer, so the real buffer would keep BLUE or SKY and throw again on each later letter until the keyword slides out of the last ten characters (at most six more letters for BLUE, seven for SKY); `Step` always empties the buffer on a match, and the no-keyword invariant relies on that.
- The scroll-triggered fades and the ambient volume crossfade (script.js:99-124): scroll-trigger configuration and floating-point volume targets.
- The timing of the thirty-second timer and of the 100 ms flash removal (script.js:143, 165-167): wall-clock scheduling. The flash is the boolean `flashed` of a step; `Poll` takes the clock readings in order instead of reading a clock.
- The 3D tilt (script.js:176-206) and the crack transition with navigation (script.js:209-238): floating-point tweens, timers and `window.location`.
- DOM lookups and writes: the scene is a record of the four fields the time check writes, the player a record of the paused flag and the button text.
- KeywordBuffer.ToUpper: models `toUpperCase` only on ASCII, the only characters the guard lets through; its own contract states only that letters become capitals and capitals stay, and `UpperIffSameLetter` states which capital each letter becomes.
