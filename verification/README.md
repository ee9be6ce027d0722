# Snackbar announcer, modelled in Dafny

A model of the screen-reader announcer of the MDC snackbar (`announce` in
`packages/mdc-snackbar/util.js`). A screen reader announces an `aria-live` region only
when that region's text *changes*. So `announce` makes the label's text change on every
call whose label is not blank, even when the new text equals the old one. It does this in two steps:

1. A synchronous step silences the region (`role="none"`, `aria-live="off"`). It also
   clears the label's `textContent` and mirrors the trimmed text into the
   `LABEL_TEXT_ATTR` marker attribute, which CSS shows while the label is empty.
2. A restore runs after a timer delay. It gives the region back the role and priority read
   at the start, drops the marker and writes the trimmed text back into the label.

The delay is `ARIA_LIVE_IE11_DELAY_MS` when the legacy-engine probe (`isIE11`) answers
true, and 0 otherwise.

Modules:

- `EcmaTrim` (`ecma_trim.dfy`): ECMAScript `String.prototype.trim`. It strips the
  WhiteSpace and LineTerminator code points of ECMA-262, and that set includes U+00A0
  (`&nbsp;`).
- `Dom` (`dom.dfy`): elements as an attribute map plus `textContent`, with
  `getAttribute` (absent gives `None`, standing in for `null`), `setAttribute` and
  `removeAttribute`. It also models how `setAttribute` converts `null` into the string
  "null", and `appendChild`/`removeChild` on a child list.
- `SnackbarUtil` (`snackbar_util.dfy`): the state is a `Snackbar` record. It holds the
  root element, the label element and a queue of pending restores in the order they were scheduled. Each queue entry
  holds the captured role, the captured priority, the trimmed text and the delay.
  `Announce`, `FireRestoreAt` and `FireRestore` are pure transitions over this record. `IsIE11` is the
  probe.
- `AnnounceProperties` (`announce_properties.dfy`): properties that span several
  transitions. They are stated over an event model: calls, timer firings, and the owner
  writing the label.

## Model

| member | source | states |
|---|---|---|
| EcmaTrim.Trim | packages/mdc-snackbar/util.js:32 | The trimmed text is a slice of the label text with only whitespace cut from each side, and it has no whitespace at either end. It is empty exactly when the text is all whitespace, and `&nbsp;` counts as whitespace. |
| EcmaTrim.TrimPadded | packages/mdc-snackbar/util.js:32 | This is the converse of `Trim`: padding a trimmed string with whitespace on both sides and then trimming gives back that same string. |
| EcmaTrim.TrimIdempotent | packages/mdc-snackbar/util.js:32 | Trimming an already-trimmed label text changes nothing. |
| SnackbarUtil.Announce | packages/mdc-snackbar/util.js:29-85 | An empty or all-whitespace label leaves the whole state unchanged and enqueues nothing. Otherwise the call has these effects: <br>• The region's role becomes "none" and its aria-live becomes "off". <br>• The label text becomes "" and the marker holds exactly the trimmed text. <br>• One restore is appended to the queue. It carries the role and aria-live read before the change, the trimmed text, and a delay that is `ARIA_LIVE_IE11_DELAY_MS` for the legacy engine and 0 otherwise. <br>No other attribute of either element changes. |
| SnackbarUtil.FireRestoreAt | packages/mdc-snackbar/util.js:74-83 | Any one pending restore fires and leaves the queue; the others stay in their order. Its effects: <br>• The region gets back that call's captured role and aria-live. A captured `null` comes back as "null". <br>• The marker attribute becomes absent. <br>• The label text becomes that call's trimmed text. <br>No other attribute changes. |
| SnackbarUtil.FireRestore | packages/mdc-snackbar/util.js:74-83 | The earliest pending restore fires and leaves the queue. Its effects: <br>• The region gets back that call's captured role and aria-live. A captured `null` comes back as "null". <br>• The marker attribute becomes absent. <br>• The label text becomes that call's trimmed text. <br>No other attribute changes. |
| SnackbarUtil.IsIE11 | packages/mdc-snackbar/util.js:87-95 | The probe reports the legacy engine exactly when the detector's computed position is "relative". The body's child list afterwards is identical to the list before. |
| Dom.RemoveAppendedChild | packages/mdc-snackbar/util.js:90-93 | Appending the fresh detector node to the body and then removing it leaves the body's children unchanged. |
| AnnounceProperties.CycleRestoresState | packages/mdc-snackbar/util.js:29-85 | This covers an idle snackbar (see `QueuedCycleRestoresState` for a busy one) with a non-blank label, one announce, then its restore. Afterwards the region's role and aria-live equal the values read at the start, not defaults. When both attributes were present the region element is identical to before; an absent one becomes "null". The marker is absent, every other label attribute is unchanged, the queue is empty, and the label shows the trimmed text, so leading and trailing whitespace is dropped. |
| AnnounceProperties.FireAllEndsWithLastRestore | packages/mdc-snackbar/util.js:74-83 | Once every queued restore has fired, earliest first, the region holds the role and aria-live captured by the last one, the marker is absent, the label shows that restore's text, and every other attribute of both elements is as before. |
| AnnounceProperties.QueuedCycleRestoresState | packages/mdc-snackbar/util.js:29-85 | This is the general form of `CycleRestoresState`: restores of earlier calls may still be queued. Once the queue has drained with no other call in between, the region's role and aria-live equal the values this call read at its start. When both were present the region element is identical to before. The marker is absent, every other label attribute is unchanged, and the label shows the trimmed text. |
| AnnounceProperties.ImmediateSecondCallIsNoOp | packages/mdc-snackbar/util.js:32-61 | A second call straight after a first one, with no label write in between, changes nothing. The first call emptied the label (line 61), so the blank-label guard returns. |
| AnnounceProperties.RepeatedTextClearsEachTime | packages/mdc-snackbar/util.js:43-61 | The same text is announced twice, each call followed by its restore. The label text goes "" → text → "" → text, and the second call still queues its restore. The cycle is not skipped because the text is unchanged. |
| AnnounceProperties.OverlappingAnnouncesLeaveRegionSilenced | packages/mdc-snackbar/util.js:29-84 | After a first call, the owner writes a new label and calls again while the first restore is still pending. The second call reads "none"/"off", because the first call set those and its restore has not run yet. Neither timer is cancelled. Both calls get the same probe answer, so both restores have the same delay and fire in the order they were scheduled, the second one last. The first restore carries the owner's role and aria-live. The region is left silenced and the label shows the second text. |
| AnnounceProperties.StepKeepsRegionInvariant | packages/mdc-snackbar/util.js:29-84 | Each single event preserves the invariant below. The events are a call, the firing of any one pending restore (not only the earliest), or a label write. The invariant: the region and every pending restore hold either the owner's role/priority or the silenced pair. |
| AnnounceProperties.RunKeepsRegionInvariant | packages/mdc-snackbar/util.js:29-84 | The same invariant holds after any interleaving of calls, timer firings and label writes. The region never holds any other role or priority. |
| AnnounceProperties.SerialCyclesRestoreRegion | packages/mdc-snackbar/util.js:29-85 | When each call waits for the previous restore, the region element ends exactly as its owner configured it, for any number of announcements. This requires both attributes to be present. |
| AnnounceProperties.HelloScenario | packages/mdc-snackbar/util.js:29-85 | Worked example: region "status"/"polite", label "  Hello  ". <br>• After the call: region "none"/"off", label "", marker "Hello". <br>• After the restore: region "status"/"polite", label "Hello", marker absent. |

Three points where the code is easy to misread, modelled as written:

- The marker carries the *trimmed* text, not the raw label text.
- An absent `role` or `aria-live` is not restored as absent. `getAttribute` returns
  `null`, and `setAttribute` stores that as the string "null". `CycleRestoresState` states
  exact restoration only when both attributes were present.
- The code never cancels an earlier timer. The model keeps every scheduled restore in the
  queue. A second call captures "none"/"off" whenever the first restore is still pending,
  and `OverlappingAnnouncesLeaveRegionSilenced` shows the result. A second call with no
  label write in between is a no-op (`ImmediateSecondCallIsNoOp`).

## Left out

- Timer semantics and wall-clock time. `setTimeout` becomes a queue of restores, each
  labelled with its delay. The event model lets any pending restore fire next
  (`FireRestoreAt`), so the region invariant does not depend on timer order. The cycle
  lemmas (`FireRestore`, `FireAll`) fire earliest first. That matches real timers as long
  as every call gets the same probe answer. The model says nothing about when a restore
  fires relative to the delay.
- `isIE11` reads `getComputedStyle`, and the answer depends on a stylesheet outside this
  model. `IsIE11` takes the computed position as a parameter. `Announce` takes the probe's
  answer as a boolean.
- The actual values of `LABEL_TEXT_ATTR` and `ARIA_LIVE_IE11_DELAY_MS` come from the
  constants file, which is not part of this model. They are fields of the `Config`
  parameter. `labelTextAttr` is taken to be a valid, lower-case attribute name.
- `Dom` looks attribute names up exactly as given. It does not model two behaviours of
  HTML elements: `getAttribute`, `setAttribute` and `removeAttribute` lower-case the name
  (ASCII only), and `setAttribute` throws `InvalidCharacterError` for a name that is not
  a valid XML Name. `announce` itself only uses the lower-case names `role` and
  `aria-live`, so this matters only for a `LABEL_TEXT_ATTR` with upper-case letters or
  an invalid name. With such a name, line 71 would store a lower-cased name or throw
  after the region was already silenced, and `Announce` describes neither.
- Screen-reader behaviour is not modelled: what gets announced, and the CSS `::before`
  rendering of the marker.
- The commented-out `innerHTML` assignment (line 65) is dead code and is not modelled.
- The root and label are modelled as two separate elements, so the label's text is not
  part of the root's `textContent`. Setting `textContent` is modelled as replacing the
  text; the resulting child nodes are not modelled.
- JavaScript strings are UTF-16 code units, while the model uses Unicode scalar values.
  Every whitespace code point is in the Basic Multilingual Plane, so trimming gives the
  same result either way.
- `FireRestore` requires a pending restore, because a timer callback exists only once
  `announce` has scheduled it. In the event model, a timer firing at a position with no
  pending restore changes nothing.
