/** The `Comment` component as an object whose handlers update its state
    fields in place. Every handler is proved to perform exactly the
    `CommentSession.Step` for its event, so the properties proved about
    `Step` and `Run` hold of any sequence of handler calls. The comment
    service and the parent's `didPost` callback are observed through ghost
    fields: the requests issued, how many are still outstanding, and how
    often `didPost` was called. */
module CommentComponent {
  import opened CommentSession
  import CommentView

  class Comment {
    var props: Props
    var isPosting: bool
    var isEditing: bool
    var editValue: Option<string>

    ghost var calls: seq<UpdateCall>
    ghost var outstanding: nat
    ghost var didPostCount: nat

    function State(): EditState
      reads this
    {
      EditState(isPosting, isEditing, editValue)
    }

    ghost function Snapshot(): Config
      reads this
    {
      Config(props, State(), calls, outstanding, didPostCount)
    }

    ghost predicate Valid()
      reads this
    {
      Inv(Snapshot())
    }

    constructor (p: Props)
      ensures props == p && !isPosting && !isEditing && editValue == Some(p.comment)
      ensures calls == [] && outstanding == 0 && didPostCount == 0
      ensures Snapshot() == Initial(p) && Valid()
      ensures Render().Card? && Render().markdownSource == p.comment
    {
      props := p;
      isPosting, isEditing, editValue := false, false, Some(p.comment);
      calls, outstanding, didPostCount := [], 0, 0;
    }

    /** `componentWillReceiveProps` followed by React rebinding `props`:
        a different comment id resets all three state fields to the new
        comment, the same id keeps them. */
    method ReceiveProps(nextProps: Props)
      requires Valid()
      modifies this
      ensures Valid() && Snapshot() == Step(old(Snapshot()), Event.ReceiveProps(nextProps))
      ensures props == nextProps
      ensures old(props.commentId) != nextProps.commentId ==>
                !isPosting && !isEditing && editValue == Some(nextProps.comment)
                && Render().Card? && Render().markdownSource == nextProps.comment
      ensures old(props.commentId) == nextProps.commentId ==>
                isPosting == old(isPosting) && isEditing == old(isEditing) && editValue == old(editValue)
      ensures calls == old(calls) && outstanding == old(outstanding) && didPostCount == old(didPostCount)
    {
      if props.commentId != nextProps.commentId {
        isPosting, isEditing, editValue := false, false, Some(nextProps.comment);
      }
      props := nextProps;
    }

    /** `toggleEdit`: flips edit mode and reseeds the draft from the
        comment text. */
    method ToggleEdit()
      requires Valid()
      modifies this
      ensures Valid() && Snapshot() == Step(old(Snapshot()), Event.ToggleEdit)
      ensures isEditing == !old(isEditing) && editValue == Some(props.comment)
      ensures isPosting == old(isPosting) && props == old(props)
      ensures calls == old(calls) && outstanding == old(outstanding) && didPostCount == old(didPostCount)
      ensures !old(isEditing) ==>
                Render().EditForm? && Render().draft == Some(props.comment) && !Render().loading
                && (Render().button == CommentView.Delete <==> props.comment == "")
      ensures old(isEditing) ==> Render().Card?
    {
      var newEditValue := props.comment;
      isEditing, editValue := !isEditing, Some(newEditValue);
    }

    /** `handleChange`: the draft becomes the textarea's value. */
    method HandleChange(value: string)
      requires Valid()
      modifies this
      ensures Valid() && Snapshot() == Step(old(Snapshot()), Event.HandleChange(value))
      ensures editValue == Some(value)
      ensures isPosting == old(isPosting) && isEditing == old(isEditing) && props == old(props)
      ensures calls == old(calls) && outstanding == old(outstanding) && didPostCount == old(didPostCount)
      ensures isEditing ==> Render().EditForm? && Render().draft == Some(value)
                            && (Render().button == CommentView.Save <==> value != "")
    {
      editValue := Some(value);
    }

    /** `submitEdit`: returns early without a selected entry, with a falsy
        line id or with an undefined draft; otherwise issues one request
        and leaves the state alone until it settles. */
    method SubmitEdit()
      requires Valid()
      modifies this
      ensures Valid() && Snapshot() == Step(old(Snapshot()), Event.SubmitEdit)
      ensures State() == old(State()) && props == old(props) && didPostCount == old(didPostCount)
      ensures var go := props.state.selectedEntry.Some? && Truthy(props.lineId) && editValue.Some?;
        (go ==> calls == old(calls) + [UpdateCall(props.lineId.value, props.commentId, editValue.value,
                                                  props.state.selectedEntry.value.logType)]
                && outstanding == old(outstanding) + 1)
        && (!go ==> calls == old(calls) && outstanding == old(outstanding))
    {
      if props.state.selectedEntry.None? {
        return;
      }
      var commentId, lineId := props.commentId, props.lineId;
      var draft := editValue;
      var log := props.state.selectedEntry.value.logType;
      if !Truthy(lineId) || draft.None? {
        return;
      }
      calls := calls + [UpdateCall(lineId.value, commentId, draft.value, log)];
      outstanding := outstanding + 1;
    }

    /** The success continuation of an issued request: leaves edit mode,
        clears the draft and calls `didPost` once. */
    method OnUpdateResolved()
      requires Valid() && outstanding > 0
      modifies this
      ensures Valid() && Snapshot() == Step(old(Snapshot()), UpdateResolved)
      ensures !isPosting && !isEditing && editValue == Some("")
      ensures didPostCount == old(didPostCount) + 1
      ensures Render().Card? && Render().markdownSource == props.comment
      ensures props == old(props) && calls == old(calls) && outstanding == old(outstanding) - 1
    {
      isPosting, isEditing, editValue := false, false, Some("");
      didPostCount := didPostCount + 1;
      outstanding := outstanding - 1;
    }

    /** A request fails: no handler runs, only the environment's count of
        outstanding requests drops. */
    method OnUpdateRejected()
      requires Valid() && outstanding > 0
      modifies this
      ensures Valid() && Snapshot() == Step(old(Snapshot()), UpdateRejected)
      ensures State() == old(State()) && props == old(props)
      ensures calls == old(calls) && didPostCount == old(didPostCount) && outstanding == old(outstanding) - 1
    {
      outstanding := outstanding - 1;
    }

    /** `render`: what the component shows for its current props and state;
        the handlers' postconditions say what it shows after each of them. */
    function Render(): (v: CommentView.View)
      reads this
    {
      CommentView.Render(props, State())
    }
  }
}
