# editkaro site script, modelled in Dafny

A model of the decision logic in `script.js`, the client-side script of the
editkaro portfolio site. Each piece of page behaviour is a pure function over
explicit state instead of DOM mutation:

- **Gallery** — `applyFilter`: which `.video-card`s are displayed for a selected
  category, the single "no results" placeholder, and the filter buttons'
  `active` class.
- **Fallback** — the `FALLBACKS` table and the round-robin `getFallback`, one
  counter per category key.
- **VideoCard** — one card's controller: the default `generic` category, the
  one-shot fallback substitution on a media error (guarded by the `fallbacked`
  flag), hover and click playback, and the preview button's source resolution.
- **Lightbox** — the shared overlay's open and close.
- **Text**, **Email**, **Contact** — the contact form: `trim()`, `.length` in
  UTF-16 code units, the email regular expression `^[^\s@]+@[^\s@]+\.[^\s@]+$`
  (as a predicate, a described shape proved equal to it, and a scanning method),
  the per-field error strings, and the `mailto:` hand-off with form reset.
- **Theme** — the light/dark toggle and its stored preference.
- **Orbital** — the particle list's size (filled with 40 on the first resize
  that finds it empty, never changed afterwards) and the range each new
  particle's fields take from its random draws.
- **Wrappers** — `Option` and JavaScript truthiness of attribute reads.

Browser effects are parameters or recorded results: the outcome of each
`play()` is carried by the event (`playOk`), `encodeURIComponent` is a function
argument of `Contact.Submit`, navigation is the returned `mailto:` URL, local
storage is the `stored` field of `Theme.Theme`, and `Math.random()` draws are an
argument of `Orbital.Resize`.

Consequences of the code as written, which the model keeps:

- The "no results" placeholder is counted over the whole document. It is only
  added when the `#portfolioGrid` container exists. A matching run removes
  only the first one found. So "exactly one placeholder when nothing matches"
  holds only with the grid present and at most one placeholder beforehand.
  Idempotence also needs at most one placeholder to start with
  (`Gallery.TwoPlaceholdersNotIdempotent` shows why).
- A filter click removes `active` only from the first active button. "Exactly
  one active button" is therefore preserved from at most one, not restored
  from several (`Gallery.ClickKeepsLaterActive`).
- Toggling the theme twice restores the stored preference only when it already
  agreed with the class. A missing or foreign stored value is replaced by
  "light" or "dark" on the first toggle.
- When a card's `<video>` has both a `src` attribute and a `<source>` child,
  the fallback is written into the `<source>`. The browser's resource
  selection uses the `src` attribute in that case, so the reload retries the
  failing `src`. The preview button likewise hands the lightbox the
  `<source>` URL while the card plays `src`. The model writes where the code
  writes and does not model which one the browser loads.
- A stored counter of `getFallback` may equal the list length after a call. It
  is reduced at the next call, so the index used is always in bounds.

## Model

| member | source | states |
|---|---|---|
| `Gallery.ApplyFilter` | script.js:74-94 | a card is displayed iff the selection is `all` or equals its category; categories and card count are unchanged; the placeholder is added only when nothing matched, none existed and the grid is present, and one is removed when something matched |
| `Gallery.ShowMatching` | script.js:76-80 | each card's visibility is set from the match test and its category kept |
| `Gallery.AnyDisplayedIffMatched` | script.js:75-80 | some card is displayed afterwards iff some card matched (the `anyVisible` flag) |
| `Gallery.PlaceholderIffNothingShown` | script.js:83-93 | with the grid present and at most one placeholder before, exactly one exists afterwards iff no card is displayed, and never more than one |
| `Gallery.AtMostOnePlaceholder` | script.js:83-93 | over any run of filter selections the placeholder count stays at most one |
| `Gallery.ApplyFilterIdempotent` | script.js:74-94 | filtering twice by the same category equals filtering once, from at most one placeholder |
| `Gallery.TwoPlaceholdersNotIdempotent` | script.js:91-92 | with two stray placeholders a second matching filter removes another one, so the filter is not idempotent there |
| `Gallery.DeactivateFirst` | script.js:97 | exactly one active button loses `active` when there is one, none otherwise; filters are kept and no button gains it |
| `Gallery.DeactivateFirstPicksFirst` | script.js:97 | the button that loses `active` is the first active one in document order, and every other button is unchanged |
| `Gallery.ClickFilter` | script.js:95-101 | the clicked button becomes active, every other button is as `DeactivateFirst` leaves it, exactly one button is active when at most one was, and the grid is filtered by the button's `data-filter` |
| `Gallery.ClickKeepsLaterActive` | script.js:95-98 | with the first two of three buttons active, a click on the third clears only the first, so two buttons stay active |
| `Gallery.ClickLeavesOnlyClickedActive` | script.js:97-98 | after a click, from at most one active button, every other button is inactive |
| `Fallback.ListFor` | script.js:121 | a key with its own entry uses it, any other key the generic list; lists are non-empty and hold non-empty URLs |
| `Fallback.GetFallback` | script.js:119-124 | the pick is the list entry at the key's counter modulo the list length, always in bounds; the key's counter becomes that index plus one, every other counter is unchanged |
| `Fallback.RoundRobin` | script.js:122-123 | the i-th of n successive picks uses index (counter + i) mod L |
| `Fallback.RoundRobinFromStart` | script.js:119-123 | a key never picked before yields indices 0, 1, …, L-1, 0, … |
| `Fallback.OtherCountersUnchanged` | script.js:122-123 | any number of picks for one key leaves every other key's counter, generic included, as it was |
| `Fallback.UnknownKeySharesListNotCounter` | script.js:121-123 | a key without its own list draws from the generic list but leaves the generic counter alone |
| `Fallback.FairShare` | script.js:120-124 | n picks for a fresh key return index j exactly n/L times, plus one if j < n mod L |
| `Lightbox.Play` | script.js:136 | a rejected `play()` leaves the element paused; the source is untouched |
| `Lightbox.Open` | script.js:129-137 | a present overlay is shown, `aria-hidden` is "false", the video holds the given source and plays iff `play()` succeeds; a missing overlay is untouched |
| `Lightbox.Close` | script.js:138-145 | a present overlay is hidden, `aria-hidden` is "true", the source is removed and the video paused; a missing overlay is untouched |
| `Lightbox.OnKey` | script.js:151-153 | Escape closes the lightbox, any other key changes nothing |
| `Lightbox.OnOverlayClick` | script.js:146-150 | a click closes iff its target has `data-close="lightbox"` or the `modal-close` class |
| `Lightbox.OpenReplaces` | script.js:134 | opening a second source replaces the first entirely |
| `Lightbox.CloseReleases` | script.js:138-145 | closing forgets what was open and closing twice equals closing once |
| `VideoCard.Setup` | script.js:157-162 | a card without `<video>` gets no controller; the category is `data-category` when non-empty, else `generic`; the `fallbacked` flag starts from the data attribute |
| `VideoCard.Play` | script.js:194 | the video plays afterwards iff it was playing or `play()` succeeded; nothing else changes |
| `VideoCard.Load` | script.js:174 | reloading leaves the video paused at the start |
| `VideoCard.Substitute` | script.js:167-171 | the fallback URL goes into the `<source>` when there is one, otherwise into the video's `src`, and the other is untouched |
| `VideoCard.OnSourceError` | script.js:165-180 | the fallback comes from the category's list via one counter step, is written into the `<source>` when there is one, otherwise into the video's `src`, and the reloaded video is back at its start and plays iff `play()` succeeds; `muted` and the card's other fields are kept |
| `VideoCard.PreviewSource` | script.js:221 | the preview source is the non-empty `<source>` src, else the non-empty video src, else a fallback pick; counters move only in the last case |
| `VideoCard.Step` | script.js:182-223 | one event: an error on an unmarked card marks it and performs exactly `onSourceError` (source substitution, one counter step, reload, retry), leaving the lightbox alone, and nothing else triggers a substitution; hover mutes and tries to play, leaving pauses and rewinds, a click toggles playback, and `muted`/`atStart` change only on those events; a preview click on a card with a button leaves the card untouched and sets the shared state to the resolved source's counters and the lightbox opened with it, and without a button does nothing |
| `VideoCard.FallbackAtMostOnce` | script.js:182-188 | over any run of events the substitution runs at most once, exactly once iff the card started unmarked and some error arrived |
| `VideoCard.PreviewSourceNonEmpty` | script.js:221 | the preview source handed to the lightbox is never empty |
| `VideoCard.PreviewOpensLightbox` | script.js:218-223 | a preview click on a card with a button shows a present lightbox with the resolved, non-empty source and leaves the card unchanged |
| `Text.Trim` | script.js:239-241 | the result is a slice of the input with only whitespace cut off on either side, and it neither starts nor ends with whitespace |
| `Text.TrimIdempotent` | script.js:239-241 | trimming a trimmed value changes nothing |
| `Text.IsWhitespace` | script.js:239-245 | the ECMAScript WhiteSpace and LineTerminator code points shared by `trim()` and `\s`; none of them is `@` or `.` |
| `Text.Utf16Length` | script.js:244-246 | `.length` of one character is 1 inside the Basic Multilingual Plane and 2 outside it; the total lies between the character count and twice it, and equals the count when every character is in the plane |
| `Text.Utf16LengthConcat` | script.js:244-246 | `.length` of a concatenation is the sum of the parts' lengths, so with the one-character case each character outside the plane adds exactly two |
| `Email.RegexMatch` | script.js:245 | the regular expression as a split into three non-empty `[^\s@]` runs around an `@` and a `.`; a match has at least five characters and contains both |
| `Email.RegexIffShape` | script.js:245 | the regular expression accepts a string iff it has no whitespace, exactly one `@` with something before it, and after it a `.` that is neither first nor last |
| `Email.MatchEmail` | script.js:245 | a single left-to-right scan accepts exactly the strings the regular expression accepts |
| `Contact.Read` | script.js:239-241 | a missing control reads as ""; otherwise the value with only surrounding whitespace cut off, neither starting nor ending with whitespace |
| `Contact.Validate` | script.js:243-247 | each error string is empty iff its field is valid, and otherwise the field's fixed message |
| `Contact.ShowErrors` | script.js:249-252 | each present error element shows its field's error; other elements and the set of elements are unchanged |
| `Contact.Mailto` | script.js:257 | the URL starts with the fixed `mailto:` recipient and subject prefix, followed directly by the encoded name |
| `Contact.BodyRoundTrip` | script.js:257 | reading the `body` parameter back (after the subject's `&`, behind `body=`, up to the next `&`) gives the encoded message, the encoded blank line and `Contact: `, then the encoded email, when the encoder never emits `&` |
| `Contact.Submit` | script.js:237-260 | on the trimmed fields, each error is empty iff its rule holds; navigation to the `mailto:` URL and reset to the defaults happen iff all three errors are empty, otherwise the values stay |
| `Contact.RejectedResubmitSame` | script.js:254-259 | a rejected submission leaves the values, so resubmitting gives the same errors and no navigation |
| `Contact.PaddingIrrelevant` | script.js:239 | surrounding whitespace in the name never changes the errors or the navigation |
| `Contact.UpToAmpersand` | script.js:257 | the text up to the first `&` is a prefix without `&`, followed by `&` when shorter than the input |
| `Contact.SubjectRoundTrip` | script.js:257 | reading the subject back from the `mailto:` URL yields the encoded name, since the encoder never emits `&` |
| `Contact.RejectsShortInput` | script.js:239-259 | name "A", email "bad", message "short" give all three errors and no navigation |
| `Contact.AcceptsGoodInput` | script.js:239-259 | name "Jane Doe", email "jane@x.com" and a 27-character message give no errors, the `mailto:` navigation and a reset |
| `Theme.Preference` | script.js:10 | the stored value is "light" iff the class is light, and otherwise "dark" |
| `Theme.Load` | script.js:6-7 | a non-empty stored value sets the class to light iff it is "light"; otherwise the markup's class stays |
| `Theme.Toggle` | script.js:8-11 | a click flips the class and stores the preference matching the new class |
| `Theme.ToggleTwice` | script.js:8-11 | two clicks restore the class, and the whole state when the stored value agreed with the class |
| `Theme.TogglePersists` | script.js:6-11 | after a toggle, the next page load restores the chosen class whatever the markup says |
| `Theme.ForeignValueLoadsDark` | script.js:6-11 | every non-empty stored value other than "light" or "dark" loads as dark in either markup state, disagrees with the class, and agrees with it after one toggle |
| `Theme.EmptyValueKeepsMarkup` | script.js:6-7 | an empty stored value is falsy, so the markup's class stays, and the stored value agrees with neither class |
| `Orbital.Spawn` | script.js:30-36 | a new particle's radius, angle, speed, size and hue lie in the ranges the random draws allow |
| `Orbital.Resize` | script.js:25-39 | an empty particle list gets exactly 40 particles; a non-empty one is kept unchanged |
| `Orbital.CountInvariant` | script.js:28-38 | after the first resize and any number of later ones, the field holds exactly the 40 particles made first |

## Left out

- `backgroundEffect.js`: the three.js bubble scene, rendering and trigonometry on time and scroll offset; it holds no decision logic.
- Orbital animation (script.js:40-58): drawing and per-frame angle advance are floating-point canvas work; only the particle count and the ranges of the new particles' fields are modelled, with reals for those fields.
- Scroll reveal (script.js:62-67) and the year display (script.js:14-15): browser callbacks with no state to reason about.
- Media playback itself: `load()`, `play()` promises, autoplay policy and `currentTime` are reduced to a paused flag, an at-start flag and a per-event success bit.
- Which element the browser fires `error` at: every `MediaError` event is taken to reach the video's listener, whether the failing resource came from `src` or a `<source>` child.
- Percent-encoding and navigation: `encodeURIComponent` is a parameter and `window.location` assignment is the returned URL; the only assumption used about the encoder is that it never emits `&`.
- Lone UTF-16 surrogates: a Dafny `string` holds Unicode scalar values only, so a field value containing an unpaired surrogate, which JavaScript's `.length` counts as 1 and `[^\s@]` matches, cannot be represented.
- Local storage I/O: the stored theme value is a field, not a storage service.
- DOM querying, event wiring, `preventDefault`, `stopPropagation` and the keyboard-to-click forwarding on the preview button (script.js:226-231). A click on the preview button is the `PreviewClick` event, so the card handler's `.play-btn` guard (script.js:207) is not a separate branch.
- `try`/`catch` around playback calls: those calls are modelled as total, so the ignored exceptions never arise.
- Fallback.ListFor: keys inherited from `Object.prototype` (such as `constructor`) are looked up as plain missing keys, though in JavaScript `FALLBACKS[key]` would find the inherited property.
- Fallback.GetFallback: the pick is always in bounds only because inherited keys are treated as missing; in JavaScript a category such as `toString` or `constructor` also finds an inherited `fallbackCounters[category]`, the index becomes NaN and `undefined` is returned. It also does not model a counter overflowing JavaScript's safe-integer range; counters here are unbounded, and the stored value never exceeds the list length anyway.
