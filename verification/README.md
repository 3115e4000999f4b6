# Comment edit session

A model of the `Comment` component of a log viewer. The component shows one
user comment attached to a log line. It lets the comment's author edit the
text, or empty it to delete it, and sends the result to a remote comment
service. The model covers the component's own state machine:

- three state fields: `isPosting`, `isEditing` and the draft `editValue`;
- the handlers that change them: the constructor, `componentWillReceiveProps`,
  `toggleEdit`, `handleChange`, `submitEdit` and its success continuation;
- the pure decisions `render` makes: card or edit form, whether the "Edit"
  link is shown, and whether the submit button reads "Save" or "Delete".

Files:

- `session.dfy` (module `CommentSession`): the props, state, requests and
  events as datatypes. `Step` applies one event to a `Config`, and `Run`
  applies a whole trace of events. `Inv` is the invariant every reachable
  configuration keeps.
- `view.dfy` (module `CommentView`): the render decisions.
- `properties.dfy` (module `SessionProperties`): lemmas about single events
  and about whole traces.
- `component.dfy` (module `CommentComponent`): the class `Comment`. Its
  handlers are methods that update its fields in place. Each handler is
  proved to perform exactly the `Step` for its event, so every trace lemma
  applies to any sequence of handler calls.

The comment service is modelled as a log of issued `updateComment(lineId,
commentId, text, logType)` requests plus a count of unsettled ones. A promise
settling is an event of its own: `UpdateResolved` runs the success
continuation, and `UpdateRejected` runs nothing. The parent's `didPost`
callback is observed as a count of calls. In the class these three are ghost
fields. `ReceiveProps` stands for `componentWillReceiveProps` followed by the
framework replacing `props` with the new props.

JavaScript semantics made explicit:

- `!lineId` is true for an absent line id and also for `""`.
- `editValue ? 'Save' : 'Delete'` gives "Delete" for `""` and for an undefined
  draft.
- The state type is `Partial<CommentState>`, so the draft is an
  `Option<string>`. The invariant proves it is always defined.
- `slackUserId === mySlackUserId` holds when both ids are absent.

## Behaviour of the code as written

The model follows the code, and the lemmas below make visible what the code
does not do:

- `isPosting` is never set to true. The submit button therefore never shows
  its loading state (`ReachableView`).
- Nothing stops a second submit while a request is outstanding. It issues the
  same request again (`SecondSubmitIssuesSecondCall`).
- A rejected request has no handler, so the session is left unchanged
  (`RejectionLeavesSession`). Because `isPosting` is never set, the form still
  accepts input.
- A success continuation that arrives after the component was rebound to a
  different comment is still applied. It clears the new comment's draft,
  leaves edit mode and calls `didPost` (`LateResolutionHitsNewComment`).
- The edit form has no control that calls `toggleEdit`. Through the interface
  the toggle only enters edit mode, and only for the author
  (`ToggleOnlyByAuthor`, `EditLinkIffAuthor`). Edit mode is left only by a
  successful submit or by a switch to another comment.

## Model

| member | source | states |
|---|---|---|
| CommentComponent.Comment.constructor | src/renderer/components/log-line-details/comment.tsx:39-51 | starts not posting, not editing, with the draft equal to the comment text and no request issued; renders the card with the comment text |
| CommentComponent.Comment.ReceiveProps | src/renderer/components/log-line-details/comment.tsx:53-61 | a different comment id resets all three fields to the new comment; the same id leaves every state field unchanged; props become the new props; after a reset the card for the new comment is rendered |
| CommentComponent.Comment.ToggleEdit | src/renderer/components/log-line-details/comment.tsx:106-111 | negates `isEditing`, reseeds the draft from the current comment text, and keeps `isPosting` and everything else; from the card it renders the edit form with the comment text, not loading, labelled Delete iff that text is empty; from the form it renders the card |
| CommentComponent.Comment.HandleChange | src/renderer/components/log-line-details/comment.tsx:84-86 | the draft becomes the typed value; nothing else changes; while editing, the form shows that value, labelled Save iff it is non-empty |
| CommentComponent.Comment.SubmitEdit | src/renderer/components/log-line-details/comment.tsx:63-82 | the state never changes synchronously; exactly one request with (line id, comment id, draft, log type) is issued iff an entry is selected, the line id is truthy and the draft is defined; otherwise the session is unchanged |
| CommentComponent.Comment.OnUpdateResolved | src/renderer/components/log-line-details/comment.tsx:74-79 | the success continuation sets not posting, not editing, empty draft, and calls `didPost` exactly once; the card with the comment text is rendered |
| CommentComponent.Comment.OnUpdateRejected | src/renderer/components/log-line-details/comment.tsx:73-81 | a failed request leaves the state, the props and the `didPost` count unchanged |
| SessionProperties.InitialState | src/renderer/components/log-line-details/comment.tsx:42-46 | the initial state is not posting, not editing, draft = comment text; it satisfies the invariant and renders the card |
| SessionProperties.ReceivePropsResetsOnNewId | src/renderer/components/log-line-details/comment.tsx:53-61 | on an id change the state is exactly {false, false, next comment}, whatever it was; on the same id the state is unchanged; requests and `didPost` count untouched |
| SessionProperties.ToggleEditFlips | src/renderer/components/log-line-details/comment.tsx:106-111 | toggle negates edit mode, sets the draft to the comment text, and changes nothing else |
| SessionProperties.ToggleTwice | src/renderer/components/log-line-details/comment.tsx:106-111 | toggling twice restores edit mode, with the draft equal to the comment text |
| SessionProperties.HandleChangeSetsDraft | src/renderer/components/log-line-details/comment.tsx:84-86 | a change sets the draft and nothing else |
| SessionProperties.SubmitEditGuards | src/renderer/components/log-line-details/comment.tsx:63-73 | submit changes nothing in the session unless an entry is selected, the line id is truthy and the draft is defined; then it appends exactly the one request (line id, comment id, draft, log type) and leaves the state alone |
| SessionProperties.EmptyLineIdBlocksSubmit | src/renderer/components/log-line-details/comment.tsx:71 | an empty-string line id blocks submit like a missing one |
| SessionProperties.ResolutionClearsAndNotifies | src/renderer/components/log-line-details/comment.tsx:74-78 | a resolved request sets {false, false, ""} and increases the `didPost` count by exactly one |
| SessionProperties.RejectionLeavesSession | src/renderer/components/log-line-details/comment.tsx:73-81 | a rejected request changes neither the state nor the props, requests or `didPost` count |
| SessionProperties.StepKeepsInv | src/renderer/components/log-line-details/comment.tsx:39-111 | every event preserves the invariant: draft defined, never posting, `didPost` calls plus unsettled requests at most the issued requests |
| SessionProperties.RunKeepsInv | src/renderer/components/log-line-details/comment.tsx:39-111 | the invariant holds after any trace of events from a valid configuration |
| SessionProperties.ReachableDraftDefined | src/renderer/components/log-line-details/comment.tsx:42-111 | after the constructor and any trace, the draft is a defined string and `isPosting` is false, so the `editValue === undefined` guard never fires |
| SessionProperties.CallsOnlyAppend | src/renderer/components/log-line-details/comment.tsx:63-82 | over any trace the request log only grows at its end, by at most one request per submit event |
| SessionProperties.DidPostAtMostOncePerResolution | src/renderer/components/log-line-details/comment.tsx:74-79 | over any trace `didPost` is called at most once per success continuation and the count never decreases |
| SessionProperties.LastChangeWins | src/renderer/components/log-line-details/comment.tsx:84-86 | after any non-empty run of changes only the last value is the draft, and nothing else changed |
| SessionProperties.EditLinkIffAuthor | src/renderer/components/log-line-details/comment.tsx:113-122 | the Edit link is offered iff the card is shown and the comment's author id equals the viewer's id; two absent ids count as equal |
| SessionProperties.LabelMatchesRequest | src/renderer/components/log-line-details/comment.tsx:99-101 | whenever a submit would send a request, the button reads Delete iff the text sent is empty and Save iff it is non-empty |
| SessionProperties.ReachableView | src/renderer/components/log-line-details/comment.tsx:130-154 | after the constructor and any trace: the card (current comment, name, avatar, timestamp, Edit link iff author) iff not editing; otherwise the form with a defined draft, never loading, labelled Delete iff the draft is empty |
| SessionProperties.ToggleOnlyByAuthor | src/renderer/components/log-line-details/comment.tsx:88-122 | a toggle reachable through the rendered interface requires viewer id = author id, and always enters edit mode with the draft seeded from the comment text |
| SessionProperties.EditThenDeleteScenario | src/renderer/components/log-line-details/comment.tsx:63-122 | author opens the editor on "hello world", empties it (label "Delete"), submits and resolves: one request with the empty text, not editing, empty draft, `didPost` called once |
| SessionProperties.LateResolutionHitsNewComment | src/renderer/components/log-line-details/comment.tsx:53-81 | a resolution arriving after a switch to another comment still clears that comment's draft and calls `didPost` |
| SessionProperties.SecondSubmitIssuesSecondCall | src/renderer/components/log-line-details/comment.tsx:63-82 | two submits in a row issue the same request twice; no guard blocks the second |

## Left out

- Markdown rendering (`renderMarkdown`, the markdown library with linkify,
  emoji and code highlighting): foreign library code. The card carries the
  markdown source it would render.
- Timestamp formatting with the date library: it depends on locale and time
  zone. The card carries the raw timestamp.
- Markup and styling (card, button, textarea, avatar style) and the observer
  decorator: presentation plumbing with no effect on the state.
- `e.preventDefault()` and the browser's native form submission are not
  modelled. The first early return (no selected entry, comment.tsx line 64)
  comes before the `preventDefault` call at line 70. In that case the native
  submit of the form is not cancelled, and the browser may navigate. The
  early return at line 71 comes after the cancel. The model treats both early
  returns as leaving the session unchanged.
- The network request itself, its response body and the debug log lines: I/O.
  The service is a log of requests plus resolution and rejection events.
- Promise timing: which outstanding request settles first is not tracked. The
  success continuation does not depend on the request, so each settling event
  applies to any one outstanding request.
- Unmounting: a continuation that runs after unmount is not modelled.
- `didPost` is observed only as a count of calls. What the parent does then is
  not part of this model.
- Changes to the application state object outside a props update (the
  selected entry or the viewer id changing while the component stays bound)
  are not separate events. The model sees them when the next props arrive.
