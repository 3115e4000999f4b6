/** The side-effect-free decisions `render`, `renderEdit` and
    `renderEditButton` make. Markup, styling and the markdown and date
    libraries are not modelled: a card carries the markdown source and the
    raw timestamp it would format. */
module CommentView {
  import opened CommentSession

  datatype Label = Save | Delete

  datatype View =
    | Card(name: string, timestamp: int, avatar: string, markdownSource: string, editButton: bool)
    | EditForm(draft: Option<string>, button: Label, loading: bool)

  /** `renderEditButton`: the "Edit" link exists exactly when the comment's
      author id is strictly equal to the viewer's; two absent ids are equal. */
  predicate ShowsEditButton(p: Props) {
    p.slackUserId == p.state.slackUserId
  }

  /** The submit button's label: "Save" for a truthy draft, "Delete" for an
      empty or undefined one. */
  function SubmitLabel(s: EditState): (l: Label) {
    if Truthy(s.editValue) then Save else Delete
  }

  /** `render`: the read-only card when not editing, the edit form when
      editing. */
  function Render(p: Props, s: EditState): (v: View) {
    if !s.isEditing then Card(p.name, p.timestamp, p.avatar, p.comment, ShowsEditButton(p))
    else EditForm(s.editValue, SubmitLabel(s), s.isPosting)
  }
}
