/** The edit session of one rendered comment, as values.

    A `Config` is everything the `Comment` component and its environment
    hold at one moment: the props it is bound to, its three state fields,
    the comment-service calls it has issued, how many of those are still
    outstanding, and how often it has called the parent's `didPost`.
    `Step` applies one event (a handler running, or a submit promise
    settling); `Run` applies a whole trace of them.
 */
module CommentSession {

  datatype Option<+T> = None | Some(value: T)

  /** JavaScript truthiness of a `string | undefined`: both `undefined` and
      the empty string are falsy. */
  predicate Truthy(o: Option<string>) {
    o.Some? && o.value != ""
  }

  type LogType = string

  /** The log entry selected in the surrounding application. */
  datatype SelectedEntry = SelectedEntry(logType: LogType)

  /** The part of the application state object the component reads. */
  datatype Sleuth = Sleuth(selectedEntry: Option<SelectedEntry>, slackUserId: Option<string>)

  /** The component's props; `didPost` is not data and is observed through
      `Config.didPostCount`. */
  datatype Props = Props(
    name: string,
    comment: string,
    commentId: string,
    avatar: string,
    timestamp: int,
    state: Sleuth,
    slackUserId: Option<string>,
    lineId: Option<string>)

  /** The component state. It is declared `Partial<CommentState>`, so the
      draft may in principle be `undefined`. */
  datatype EditState = EditState(isPosting: bool, isEditing: bool, editValue: Option<string>)

  /** One `updateComment(lineId, commentId, text, logType)` request. */
  datatype UpdateCall = UpdateCall(lineId: string, commentId: string, text: string, logType: LogType)

  datatype Config = Config(
    props: Props,
    edit: EditState,
    calls: seq<UpdateCall>,   // every request issued, oldest first
    outstanding: nat,         // requests whose promise has not settled yet
    didPostCount: nat)        // how often `didPost` has been called

  datatype Event =
    | ReceiveProps(next: Props)   // componentWillReceiveProps, then props := next
    | ToggleEdit
    | HandleChange(value: string)
    | SubmitEdit
    | UpdateResolved              // the success continuation of some request
    | UpdateRejected              // some request fails; nothing handles it

  /** The state set by the constructor. */
  function InitialEdit(p: Props): (s: EditState) {
    EditState(false, false, Some(p.comment))
  }

  function Initial(p: Props): (c: Config) {
    Config(p, InitialEdit(p), [], 0, 0)
  }

  /** The state the success continuation sets. */
  const Cleared := EditState(false, false, Some(""))

  /** The request `submitEdit` issues, or None when one of its early
      returns fires: no selected entry, a falsy `lineId`, or an undefined
      draft. */
  function SubmitRequest(p: Props, s: EditState): (call: Option<UpdateCall>) {
    if p.state.selectedEntry.None? then None
    else if !Truthy(p.lineId) || s.editValue.None? then None
    else Some(UpdateCall(p.lineId.value, p.commentId, s.editValue.value, p.state.selectedEntry.value.logType))
  }

  function Step(c: Config, e: Event): (r: Config) {
    match e
    case ReceiveProps(next) =>
      var edit := if c.props.commentId != next.commentId then InitialEdit(next) else c.edit;
      c.(props := next, edit := edit)
    case ToggleEdit =>
      c.(edit := c.edit.(isEditing := !c.edit.isEditing, editValue := Some(c.props.comment)))
    case HandleChange(v) =>
      c.(edit := c.edit.(editValue := Some(v)))
    case SubmitEdit =>
      (match SubmitRequest(c.props, c.edit)
       case None => c
       case Some(call) => c.(calls := c.calls + [call], outstanding := c.outstanding + 1))
    case UpdateResolved =>
      if c.outstanding == 0 then c
      else c.(edit := Cleared, outstanding := c.outstanding - 1, didPostCount := c.didPostCount + 1)
    case UpdateRejected =>
      if c.outstanding == 0 then c
      else c.(outstanding := c.outstanding - 1)
  }

  function Run(c: Config, es: seq<Event>): (r: Config)
    decreases |es|
  {
    if es == [] then c else Run(Step(c, es[0]), es[1..])
  }

  /** What holds in every reachable configuration: the draft is defined,
      nothing is ever marked as posting, and `didPost` has not been called
      more often than requests have settled. */
  ghost predicate Inv(c: Config) {
    c.edit.editValue.Some? && !c.edit.isPosting && c.didPostCount + c.outstanding <= |c.calls|
  }
}
