# Portfolio page behaviour, modelled in Dafny

The portfolio site's `script.js` wires a handful of behaviours into the page once
its structure is loaded. Three of them carry logic that can be stated apart from
the browser, and this project models and proves them:

- **Typewriter** (`typewriter.dfy`): the typing effect under the hero title. A
  closure over `rIndex`, `cIndex` and `deleting` types a phrase one character per
  tick, pauses, deletes it, pauses, and moves to the next of three phrases. The
  pure function `Step` is one tick; the class `Animation` holds the closure state
  and its `Tick` method is proved to do exactly `Step`, returning the delay of
  the next tick instead of calling `setTimeout`. Lemmas prove the bounds
  invariant after any number of ticks, the shape of each phase, and that a full
  cycle of `2·|phrase|` ticks lands on the empty display of the next phrase after
  `180·|phrase| + 1220` ms.
- **Scroll tracker** (`scroll_tracker.dfy`): the intersection-observer callback.
  Navigation links are an array of `(href, active)` records, a batch of observer
  entries a sequence of `(id, isIntersecting)`, the section colours a map.
  `SetActiveNav` and `HandleBatch` are loops proved against the specification
  functions `MarkActive`, `LastIntersecting` and `LastAccent`; `Start` is the
  start-up choice between observing and the `home`-colour fallback.
- **Certificate modal** (`certificate_modal.dfy`, `onclick_pattern.dfy`): open,
  close, the click and Escape dismissals, and the Enter-key shim. The shim's
  regular expression `openCertificate\(['"](.+?)['"]\)` is modelled as a pure
  function `ExtractPath` proved against a declarative description of the match
  (leftmost start, shortest non-empty group, no line terminator inside it).

`wrappers.dfy` holds the `Option` type shared by the modules.

Points where the code does less, or other, than its names suggest:

- `setActiveNav` (script.js:69-77) marks every link whose href equals `#id`, not
  one link. `ExactlyOneActive` proves one active link (or none) only when the
  hrefs are distinct.
- The accent is changed "if mapping exists" (the comment at script.js:85), but
  the test at script.js:86 is the truthiness of `sectionColors[id]`. Every colour
  in the map is a non-empty string, so `AccentFor` proves that the test comes
  down to the id being a key of the map.
- `closeCertificate` checks only that the modal exists (script.js:129). It then
  writes `certImg.src` without a check, so a missing image makes it throw. `Close`
  returns `ThrewTypeError` in that case, after the container has been hidden.

## Model

| member | source | states |
|---|---|---|
| Typewriter.Slice | script.js:35 | `full.slice(0, end)` is a prefix of `full`; its length is `end` when `end` is in range; a negative end counts from the back |
| Typewriter.Step | script.js:30-53 | one tick: typing adds a character and waits 120 ms, or 1200 ms and switches to deleting once the phrase is complete; deleting removes one and waits 60 ms, or 200 ms, switches to typing and advances the phrase index modulo the list length on reaching 0; the display is a prefix of the phrase read before the tick; on non-empty phrases the invariant is kept and the display is exactly `cIndex` characters of the current phrase |
| Typewriter.Ticks | script.js:29-53 | from any state that meets the invariant, the state after any number of ticks meets it, so `0 <= cIndex <= |roles[rIndex]|` |
| Typewriter.ReachableInBounds | script.js:28-53 | from the start `(0, 0, false)`, after any number of ticks, `0 <= rIndex < |roles|` and `0 <= cIndex <= |roles[rIndex]|` |
| Typewriter.TicksAdd | script.js:30-53 | `a` ticks then `b` ticks equal `a + b` ticks, in state and in total delay |
| Typewriter.TypingRun | script.js:43-51 | in the typing phase, `k` ticks add `k` characters without changing the phrase, 120 ms each, except 1200 ms on the tick that completes the phrase and switches to deleting |
| Typewriter.DeletingRun | script.js:33-42 | in the deleting phase, `k` ticks remove `k` characters, 60 ms each; the tick reaching 0 waits 200 ms, switches to typing and moves to the next phrase modulo the list length |
| Typewriter.FullCycle | script.js:30-53 | `2·|phrase|` ticks from `(r, 0, false)` end at `((r+1) % n, 0, false)` after `180·|phrase| + 1220` ms |
| Typewriter.EmptyPhraseOvershoots | script.js:44-47 | on an empty phrase the first tick leaves `cIndex` above the phrase length: the bound needs non-empty phrases |
| Typewriter.Animation.constructor | script.js:27-29 | the closure starts on the page's three phrases at `(0, 0, false)` |
| Typewriter.Animation.Tick | script.js:30-53 | without the `#typed` element nothing changes and nothing is scheduled; otherwise the state, display and returned delay are those of `Step`, the invariant is kept, and the display is the first `cIndex` characters of the current phrase |
| ScrollTracker.AccentFor | script.js:86-87 | on the page's colour map, the truthiness test `sectionColors[id]` holds exactly when `id` is one of the six keys, and the accent is then that key's colour |
| ScrollTracker.MarkActive | script.js:69-77 | `setActiveNav(id)` keeps the number of links and every href; a link is active exactly when its href is `#id` |
| ScrollTracker.MarkActiveOverrides | script.js:69-77 | marking for `b` after marking for `a` is marking for `b` |
| ScrollTracker.MarkActiveIdempotent | script.js:69-77 | `setActiveNav(id)` twice is the same as once |
| ScrollTracker.ActiveCountOfMarked | script.js:69-77 | after `setActiveNav(id)`, the number of active links is the number of links whose href is `#id` |
| ScrollTracker.HrefCountDistinct | script.js:68 | with distinct hrefs, a given href occurs on one link if it occurs at all |
| ScrollTracker.ExactlyOneActive | script.js:69-77 | with distinct hrefs, after `setActiveNav(id)` exactly one link is active if one points at `#id`, none otherwise |
| ScrollTracker.LastIntersecting | script.js:81-91 | the id deciding the active link of a batch is that of the last intersecting entry, and there is none exactly when no entry intersects |
| ScrollTracker.LastAccent | script.js:81-91 | the colour deciding the accent of a batch is that of the last intersecting entry whose section has a colour, and it is a colour of the map; there is none exactly when no intersecting entry has one |
| ScrollTracker.NonIntersectingIgnored | script.js:82-83 | dropping the non-intersecting entries of a batch changes neither the active link nor the accent |
| ScrollTracker.Tracker.constructor | script.js:68 | the tracker starts on the page's links and current accent, not yet observing |
| ScrollTracker.Tracker.Start | script.js:79-98 | sections are observed exactly when the observer exists and there is at least one section; otherwise the accent becomes the `home` colour |
| ScrollTracker.Tracker.SetActiveNav | script.js:69-77 | the loop leaves the links as `MarkActive` says |
| ScrollTracker.Tracker.HandleBatch | script.js:81-91 | after a batch the accent is the last mapped intersecting entry's colour (unchanged if none) and the links are marked for the last intersecting entry (unchanged if none) |
| OnclickPattern.ShortestClose | script.js:155 | the lazy group `.+?`: the shortest length from `k` on whose group is followed by a quote and `)`, with no line terminator inside; none when there is no such length |
| OnclickPattern.FindFrom | script.js:155 | the leftmost start from `i` on at which the whole pattern matches, with its shortest group; none when no start matches |
| OnclickPattern.ExtractPath | script.js:155 | the first group of the leftmost, shortest match, none exactly when the pattern matches nowhere; a path is non-empty and has no line terminator |
| OnclickPattern.ExtractCall | script.js:152-156 | on `openCertificate('p')` (either quote, anything after) with `p` non-empty and free of quotes and line breaks, the extracted path is `p` |
| OnclickPattern.NoCalleeNoPath | script.js:155 | text without `openCertificate(` and a quote yields no path |
| CertificateModal.Modal.constructor | script.js:117-118 | the modal starts with the page's elements and attributes |
| CertificateModal.Modal.Open | script.js:120-127 | with both elements, the image source is the argument and the modal is shown (`aria-hidden` "false", display "flex"); with either missing nothing changes |
| CertificateModal.Modal.Close | script.js:128-133 | without the container nothing changes; with it the modal is hidden (`aria-hidden` "true", display "none") and the source cleared, or, without the image, a `TypeError` is thrown after hiding |
| CertificateModal.Modal.OnClick | script.js:136-139 | a click closes the modal only when its target is the container itself: hidden, the source cleared when the image exists, a `TypeError` with the source untouched when it does not; any other target changes nothing |
| CertificateModal.Modal.OnKeyDown | script.js:142-144 | Escape always closes: hidden, the source cleared when the image exists, a `TypeError` with the source untouched when it does not; other keys change nothing |
| CertificateModal.Modal.OnExpKeyPress | script.js:149-160 | Enter with an `onclick` text the pattern matches opens the modal on the extracted path; other keys, a missing or empty `onclick` or no match change nothing |
| CertificateModal.OpenThenClose | script.js:120-133 | open followed by close leaves the modal hidden with an empty source |
| CertificateModal.EscapeWhileOpen | script.js:142-144 | Escape while the modal is shown hides it and clears the source |
| CertificateModal.EnterOpensPath | script.js:149-157 | Enter on an element whose `onclick` is `openCertificate('p')` opens the modal on `p` |

## Left out

- The background images per section (`script.js:7-22`): three style writes per element, nothing beyond assignment.
- Timer scheduling: `setTimeout` and the self-rescheduling loop are replaced by the delay `Tick` returns; the first call at start-up is not modelled separately.
- Visibility: the intersection observer's geometry and its 0.55 threshold are the browser's floating-point computation; `isIntersecting` is an input.
- Smooth scrolling (`script.js:103-112`): `preventDefault` and `scrollIntoView` are calls into the browser with no state of the model's.
- `modal.focus()`, event dispatch and bubbling, `querySelector` resolution and attaching the functions to `window`: browser behaviour, not modelled.
- Element identity in the click handler is reduced to the flag `targetIsModal`.
- Class lists are reduced to the `active` flag of each link; other classes are untouched by the code and not modelled.
- ScrollTracker.AccentFor: ids that name inherited properties of a JavaScript object (such as `constructor`) are truthy in the source and would set the accent; the model treats only the six own keys as mapped.
- A thrown `TypeError` is reported as an outcome; the browser's error reporting is not modelled.
- Regular expressions in general: only the one fixed pattern is modelled, on Dafny characters rather than UTF-16 code units.
