# Portfolio page: typewriter header and active-section tracker

A model, in Dafny, of the two pieces of state logic in the portfolio page
component `src/components/accueil/accueil.tsx`.

- **Typewriter** (`Typewriter.dfy`). The header types the phrases of a fixed
  three-phrase table character by character. On a full phrase it asks for a
  delayed pause event. That event switches to deleting. The header then deletes
  character by character and moves on to the next phrase. The component's four
  state fields (`text`, `isDeleting`, `loopNum`, `typingSpeed`) are the fields of
  the class `TypewriterState`. `Tick` is the net effect of one call of the timer
  handler. Its body follows the handler's order of updates. The handler reads the
  fields' values from before the tick, and the later speed update (100 on a wrap)
  overrides the earlier one. `PauseElapsed` is the delayed event. `Step` is the
  same tick written as a four-case state machine. `Tick` is proved to agree with
  it, and the lemmas are stated about `Step`, `Run` (n ticks) and `Replay` (any
  history of ticks and pause events). JavaScript's `substring` is modelled with
  its clamping of both indices to `[0, length]` and its swap of reversed indices.
  So typing past a full phrase leaves it whole, and deleting from the empty text
  gives the empty text. Every phrase character is a single UTF-16 unit, so one
  Dafny `char` is one JavaScript string unit.
- **Active section** (`ActiveSection.dfy`). The viewport observer's callback
  walks a batch of entries. Each intersecting entry overwrites `activeSection`
  with its section id. `Tracker.OnEntries` is that loop. `Settle` (through
  `LastIntersecting`) is its specification: the id of the last intersecting
  entry, or the old value when none intersects.

Two points of the handler's behaviour:

- After a full phrase, deletion starts only when the separate pause event
  arrives. A tick at that point does not start it.
- The phrase index is `loopNum % 3`, and `loopNum` counts completed phrases,
  not ticks.

## Model

| member | source | states |
|---|---|---|
| Typewriter.Clamp | src/components/accueil/accueil.tsx:40 | an index passed to `substring` becomes the nearest point of `[0, length]` |
| Typewriter.Substring | src/components/accueil/accueil.tsx:40 | `substring(start, end)` is the piece of the string between the two clamped indices, taken from the smaller one; its length is their distance |
| Typewriter.SubstringSwap | src/components/accueil/accueil.tsx:40 | `substring` gives the same result with its two indices swapped |
| Typewriter.NextText | src/components/accueil/accueil.tsx:39-41 | the next text is a prefix of the phrase, one unit longer when typing or shorter when deleting, clamped to `[0, length]` |
| Typewriter.SubstringFromZero | src/components/accueil/accueil.tsx:40 | `substring(0, e)` is the phrase cut at `e` clamped to `[0, length]`; it is a prefix of the phrase |
| Typewriter.PhraseOf | src/components/accueil/accueil.tsx:28-32 | `loopNum % 3` always selects a phrase of the table, so the lookup never goes out of bounds |
| Typewriter.Step | src/components/accueil/accueil.tsx:35-55 | one tick keeps the invariant: text a prefix of the active phrase, delay in {80, 100, 150} |
| Typewriter.Pause | src/components/accueil/accueil.tsx:48 | the pause event sets `isDeleting`, changes nothing else, and keeps the invariant |
| Typewriter.Run | src/components/accueil/accueil.tsx:57 | any number of ticks in a row keeps the invariant |
| Typewriter.Replay | src/components/accueil/accueil.tsx:34-59 | any history of ticks and pause events keeps the invariant and never decreases `loopNum` |
| Typewriter.InitialValid | src/components/accueil/accueil.tsx:21-24 | the initial state (`""`, not deleting, loop 0, 150 ms) satisfies the invariant |
| Typewriter.StepTypes | src/components/accueil/accueil.tsx:40-44 | typing a shorter text adds exactly the phrase's next character, delay 150, no pause requested |
| Typewriter.StepDeletes | src/components/accueil/accueil.tsx:40-44 | deleting a non-empty text removes exactly its last character, delay 80, still deleting |
| Typewriter.StepAtFull | src/components/accueil/accueil.tsx:40-48 | on a full phrase the text, `isDeleting` and `loopNum` stay and the pause is requested |
| Typewriter.StepWraps | src/components/accueil/accueil.tsx:49-53 | deleting the empty text ends deletion, adds 1 to `loopNum`, keeps `""`, delay 100; the phrase index advances by one modulo 3 |
| Typewriter.StepPause | src/components/accueil/accueil.tsx:47-48 | the pause is requested if and only if typing and the text is the full phrase |
| Typewriter.StepLoopNum | src/components/accueil/accueil.tsx:49-51 | `loopNum` changes only on a wrap, by exactly 1; it never decreases |
| Typewriter.StepDeletingFlag | src/components/accueil/accueil.tsx:47-50 | after a tick the text is being deleted if and only if it was being deleted and was non-empty |
| Typewriter.StepSpeed | src/components/accueil/accueil.tsx:43-53 | the delay after a tick is 150 typing, 80 deleting, 100 on a wrap |
| Typewriter.TypingReachesFull | src/components/accueil/accueil.tsx:40 | typing reaches the full phrase after (phrase length minus text length) ticks, with no pause requested before then, on the same phrase, with delay 150 when at least one character was typed |
| Typewriter.DeletingReachesEmpty | src/components/accueil/accueil.tsx:40 | deleting reaches `""` after (text length) ticks, on the same phrase |
| Typewriter.FullCycle | src/components/accueil/accueil.tsx:34-59 | from `""` the phrase is typed fully, the next tick keeps that state and requests the pause, the pause starts deletion, the text is emptied, and the next tick moves to the next phrase |
| Typewriter.ReachableValid | src/components/accueil/accueil.tsx:21-24 | every state reachable from the initial one satisfies the invariant |
| Typewriter.LoopNumMonotone | src/components/accueil/accueil.tsx:51 | histories compose, and extending a history never decreases `loopNum` |
| Typewriter.TypewriterState.constructor | src/components/accueil/accueil.tsx:21-24 | the fields start as `""`, false, 0, 150 |
| Typewriter.TypewriterState.Tick | src/components/accueil/accueil.tsx:35-55 | the handler's sequence of updates has the net effect of `Step`, including the pause request, and keeps the invariant |
| Typewriter.TypewriterState.PauseElapsed | src/components/accueil/accueil.tsx:48 | the delayed event sets `isDeleting` to true and keeps the invariant |
| ActiveSection.LastIntersecting | src/components/accueil/accueil.tsx:88-92 | an id found in a batch is the id of one of its intersecting entries |
| ActiveSection.Settle | src/components/accueil/accueil.tsx:88-92 | the active id after a batch is either the old one or the id of an intersecting entry of the batch, and it is the old one when no entry intersects |
| ActiveSection.LastIntersectingSome | src/components/accueil/accueil.tsx:88-92 | the batch yields `id` if and only if some intersecting entry has that id and no later entry intersects |
| ActiveSection.LastIntersectingNone | src/components/accueil/accueil.tsx:88-92 | the batch yields nothing if and only if no entry intersects |
| ActiveSection.SettleSnoc | src/components/accueil/accueil.tsx:89-91 | an intersecting entry overwrites the active id; a non-intersecting one never changes it |
| ActiveSection.SettleConcat | src/components/accueil/accueil.tsx:87-93 | two batches in a row give the same active id as one batch holding both |
| ActiveSection.OnlyAboutIntersecting | src/components/accueil/accueil.tsx:87-93 | from `"home"`, a batch in which only `about` intersects makes `about` active |
| ActiveSection.Tracker.constructor | src/components/accueil/accueil.tsx:17 | the active section starts as `"home"` |
| ActiveSection.Tracker.OnEntries | src/components/accueil/accueil.tsx:87-93 | after the loop over a batch, the active section is the last intersecting id, or unchanged when none intersects |

## Left out

- Timers: `setTimeout`, `clearTimeout` and the re-arming of the effect. A tick and the pause event are explicit calls. The 1500 ms delay (`PauseDelay`) is recorded but not simulated. A late or duplicate pause timeout is a timing issue and is not modelled.
- React rendering: the setters are taken as one atomic update per tick. The effect's re-run on every render (the phrase table is rebuilt each render) is not modelled.
- Viewport geometry: the observer's construction, threshold, root margin, and observe/unobserve calls. The entry batch is an input.
- The scroll listener that sets the header style (`scrollY > 50`), the menu toggle, and the CV download: DOM plumbing with no decision logic.
- All markup, the static project list and the page content.
- `src/router/Router.tsx`: it maps two paths to the same page and has no logic; it is not part of this model.
