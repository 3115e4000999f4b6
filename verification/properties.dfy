/** What the edit session guarantees, one event at a time and over whole
    traces of events. Several lemmas near the end record behaviour of the
    code as written that a reader might not expect: the stale success
    continuation, the unguarded second submit, and the edit form without a
    way back. */
module SessionProperties {
  import opened CommentSession
  import opened CommentView

  // ---------------------------------------------------------------- one event

  /** The constructor starts outside edit mode, not posting, with the draft
      equal to the comment text, and nothing issued. */
  lemma InitialState(p: Props)
    ensures Initial(p).edit == EditState(false, false, Some(p.comment))
    ensures Initial(p).calls == [] && Initial(p).didPostCount == 0
    ensures Inv(Initial(p))
    ensures Render(p, Initial(p).edit).Card?
  {
  }

  /** Rebinding to a different comment id resets the state to exactly the
      initial state for the new props, whatever it was before, and touches
      nothing else; rebinding to the same id keeps every state field. */
  lemma ReceivePropsResetsOnNewId(c: Config, next: Props)
    ensures var r := Step(c, ReceiveProps(next));
      r.props == next && r.calls == c.calls && r.outstanding == c.outstanding
      && r.didPostCount == c.didPostCount
      && (c.props.commentId != next.commentId ==> r.edit == EditState(false, false, Some(next.comment)))
      && (c.props.commentId == next.commentId ==> r.edit == c.edit)
  {
  }

  /** `toggleEdit` flips edit mode, reseeds the draft from the current
      comment text and keeps `isPosting`. */
  lemma ToggleEditFlips(c: Config)
    ensures var r := Step(c, ToggleEdit);
      r.edit.isEditing == !c.edit.isEditing && r.edit.editValue == Some(c.props.comment)
      && r.edit.isPosting == c.edit.isPosting
      && r.(edit := c.edit) == c
  {
  }

  /** Toggling twice restores edit mode and leaves the draft equal to the
      comment text. */
  lemma ToggleTwice(c: Config)
    ensures Run(c, [ToggleEdit, ToggleEdit]) == c.(edit := c.edit.(editValue := Some(c.props.comment)))
  {
  }

  /** `handleChange` overwrites the draft and nothing else. */
  lemma HandleChangeSetsDraft(c: Config, v: string)
    ensures Step(c, HandleChange(v)) == c.(edit := c.edit.(editValue := Some(v)))
  {
  }

  /** `submitEdit` never changes the state synchronously. It issues exactly
      one request, with the line id, comment id, draft and the selected
      entry's log type, exactly when an entry is selected, the line id is
      truthy and the draft is defined; otherwise it changes nothing in the
      session (what the first early return leaves to the browser is not
      part of the model). */
  lemma SubmitEditGuards(c: Config)
    ensures var r := Step(c, SubmitEdit);
      var go := c.props.state.selectedEntry.Some? && Truthy(c.props.lineId) && c.edit.editValue.Some?;
      r.edit == c.edit && r.props == c.props && r.didPostCount == c.didPostCount
      && (!go ==> r == c)
      && (go ==> r.calls == c.calls + [UpdateCall(c.props.lineId.value, c.props.commentId,
                                                  c.edit.editValue.value,
                                                  c.props.state.selectedEntry.value.logType)]
                 && r.outstanding == c.outstanding + 1)
  {
  }

  /** An empty line id counts as missing, as `!lineId` does. */
  lemma EmptyLineIdBlocksSubmit(c: Config)
    requires c.props.lineId == Some("")
    ensures Step(c, SubmitEdit) == c
  {
  }

  /** The success continuation of an issued request clears the session
      and calls `didPost` exactly once. */
  lemma ResolutionClearsAndNotifies(c: Config)
    requires c.outstanding > 0
    ensures var r := Step(c, UpdateResolved);
      r.edit == EditState(false, false, Some("")) && r.didPostCount == c.didPostCount + 1
      && r.props == c.props && r.calls == c.calls && r.outstanding == c.outstanding - 1
  {
  }

  /** A failed request has no handler: the session is left as it was. */
  lemma RejectionLeavesSession(c: Config)
    ensures var r := Step(c, UpdateRejected);
      r.edit == c.edit && r.props == c.props && r.calls == c.calls
      && r.didPostCount == c.didPostCount
  {
  }

  // ---------------------------------------------------------------- traces

  lemma StepKeepsInv(c: Config, e: Event)
    requires Inv(c)
    ensures Inv(Step(c, e))
  {
  }

  /** Every configuration reachable from a valid one is valid: the draft is
      always a defined string (so the `editValue === undefined` guard never
      fires), `isPosting` is never true, and `didPost` has never been called
      more often than requests were issued. */
  lemma {:induction false} RunKeepsInv(c: Config, es: seq<Event>)
    requires Inv(c)
    ensures Inv(Run(c, es))
    decreases |es|
  {
    if es != [] {
      StepKeepsInv(c, es[0]);
      RunKeepsInv(Step(c, es[0]), es[1..]);
    }
  }

  /** Whatever happens after the constructor, the draft is a defined string
      and nothing is marked as posting. */
  lemma {:induction false} ReachableDraftDefined(p: Props, es: seq<Event>)
    ensures var r := Run(Initial(p), es);
      r.edit.editValue.Some? && !r.edit.isPosting
  {
    InitialState(p);
    RunKeepsInv(Initial(p), es);
  }

  /** Issued requests are never forgotten or reordered: the request log
      only grows at its end, and by at most one per `SubmitEdit` event. */
  lemma {:induction false} CallsOnlyAppend(c: Config, es: seq<Event>)
    ensures c.calls <= Run(c, es).calls
    ensures |Run(c, es).calls| <= |c.calls| + CountSubmits(es)
    decreases |es|
  {
    if es != [] {
      CallsOnlyAppend(Step(c, es[0]), es[1..]);
      assert es == [es[0]] + es[1..];
      CountSubmitsCons(es[0], es[1..]);
    }
  }

  function CountSubmits(es: seq<Event>): (n: nat)
    decreases |es|
  {
    if es == [] then 0 else (if es[0].SubmitEdit? then 1 else 0) + CountSubmits(es[1..])
  }

  function CountResolutions(es: seq<Event>): (n: nat)
    decreases |es|
  {
    if es == [] then 0 else (if es[0].UpdateResolved? then 1 else 0) + CountResolutions(es[1..])
  }

  lemma CountSubmitsCons(e: Event, es: seq<Event>)
    ensures CountSubmits([e] + es) == (if e.SubmitEdit? then 1 else 0) + CountSubmits(es)
  {
  }

  lemma CountResolutionsCons(e: Event, es: seq<Event>)
    ensures CountResolutions([e] + es) == (if e.UpdateResolved? then 1 else 0) + CountResolutions(es)
  {
  }

  /** `didPost` is called at most once per success continuation in the
      trace, and never un-called. */
  lemma {:induction false} DidPostAtMostOncePerResolution(c: Config, es: seq<Event>)
    ensures c.didPostCount <= Run(c, es).didPostCount <= c.didPostCount + CountResolutions(es)
    decreases |es|
  {
    if es != [] {
      DidPostAtMostOncePerResolution(Step(c, es[0]), es[1..]);
      assert es == [es[0]] + es[1..];
      CountResolutionsCons(es[0], es[1..]);
    }
  }

  /** The events a sequence of keystrokes produces. */
  function Changes(vs: seq<string>): (es: seq<Event>) {
    seq(|vs|, i requires 0 <= i < |vs| => HandleChange(vs[i]))
  }

  /** Last write wins: after any non-empty run of changes only the last
      value is kept, and nothing else has changed. */
  lemma {:induction false} LastChangeWins(c: Config, vs: seq<string>)
    requires |vs| > 0
    ensures Run(c, Changes(vs)) == c.(edit := c.edit.(editValue := Some(vs[|vs| - 1])))
    decreases |vs|
  {
    var es := Changes(vs);
    assert es[1..] == Changes(vs[1..]);
    var c1 := Step(c, HandleChange(vs[0]));
    if |vs| == 1 {
      assert Run(c, es) == Run(c1, []);
    } else {
      LastChangeWins(c1, vs[1..]);
    }
  }

  // ---------------------------------------------------------------- the UI

  /** The events a user can trigger through what `render` shows: the
      "Edit" link exists only on a card with the edit button; the textarea
      and the submit button exist only on the edit form. */
  predicate Clickable(c: Config, e: Event) {
    var v := Render(c.props, c.edit);
    match e
    case ToggleEdit => v.Card? && v.editButton
    case HandleChange(_) => v.EditForm?
    case SubmitEdit => v.EditForm?
    case _ => false
  }

  /** Only the author can reach edit mode through the interface, and the
      only toggle the interface offers enters edit mode: the edit form has
      no control that leaves it. */
  lemma ToggleOnlyByAuthor(c: Config)
    requires Clickable(c, ToggleEdit)
    ensures c.props.slackUserId == c.props.state.slackUserId
    ensures !c.edit.isEditing && Step(c, ToggleEdit).edit.isEditing
    ensures Step(c, ToggleEdit).edit.editValue == Some(c.props.comment)
  {
  }

  /** The "Edit" link is offered exactly on the read-only card of a comment
      whose author id equals the viewer's id; two absent ids count as equal,
      so an anonymous viewer may edit an anonymous comment. */
  lemma EditLinkIffAuthor(c: Config)
    ensures Clickable(c, ToggleEdit) <==> !c.edit.isEditing && c.props.slackUserId == c.props.state.slackUserId
    ensures !c.edit.isEditing && c.props.slackUserId.None? && c.props.state.slackUserId.None?
            ==> Clickable(c, ToggleEdit)
  {
  }

  /** Whenever a submit would send a request, the button reads "Delete"
      exactly when the text sent is empty, which the service treats as a
      deletion, and "Save" otherwise. */
  lemma LabelMatchesRequest(c: Config)
    requires SubmitRequest(c.props, c.edit).Some?
    ensures SubmitLabel(c.edit) == Delete <==> SubmitRequest(c.props, c.edit).value.text == ""
    ensures SubmitLabel(c.edit) == Save <==> |SubmitRequest(c.props, c.edit).value.text| > 0
  {
  }

  /** What `render` shows after the constructor and any trace of events:
      the read-only card, with the current comment and the edit link exactly
      for its author, whenever not editing; otherwise the edit form holding a
      defined draft, never in its loading state, labelled "Delete" exactly
      when the draft is empty. */
  lemma {:induction false} ReachableView(p: Props, es: seq<Event>)
    ensures var r := Run(Initial(p), es);
      var v := Render(r.props, r.edit);
      (v.Card? <==> !r.edit.isEditing)
      && (v.Card? ==> v.markdownSource == r.props.comment && v.name == r.props.name
                      && v.avatar == r.props.avatar && v.timestamp == r.props.timestamp
                      && (v.editButton <==> r.props.slackUserId == r.props.state.slackUserId))
      && (v.EditForm? ==> v.draft.Some? && v.draft == r.edit.editValue && !v.loading
                          && (v.button == Delete <==> v.draft == Some("")))
  {
    InitialState(p);
    RunKeepsInv(Initial(p), es);
  }

  /** The edit-then-delete walk-through: the author opens the editor on
      "hello world", empties the draft (the button reads "Delete"), submits,
      and the request resolves. */
  lemma EditThenDeleteScenario(p: Props)
    requires p.comment == "hello world"
    requires p.slackUserId == Some("alice") && p.state.slackUserId == Some("alice")
    requires p.lineId == Some("line-1") && p.state.selectedEntry.Some?
    ensures ShowsEditButton(p)
    ensures Run(Initial(p), [ToggleEdit]).edit.editValue == Some("hello world")
    ensures SubmitLabel(Run(Initial(p), [ToggleEdit, HandleChange("")]).edit) == Delete
    ensures var r := Run(Initial(p), [ToggleEdit, HandleChange(""), SubmitEdit, UpdateResolved]);
      !r.edit.isEditing && r.edit.editValue == Some("") && r.didPostCount == 1
      && r.calls == [UpdateCall("line-1", p.commentId, "", p.state.selectedEntry.value.logType)]
  {
  }

  // ------------------------------------------------ the code as written

  /** A success continuation that arrives after the component was rebound
      to another comment is still applied: it wipes the new comment's
      draft, leaves edit mode and calls `didPost`. No guard keyed by the
      comment id exists. */
  lemma LateResolutionHitsNewComment(c: Config, next: Props)
    requires SubmitRequest(c.props, c.edit).Some?
    requires c.props.commentId != next.commentId && next.comment != ""
    ensures var r := Run(c, [SubmitEdit, ReceiveProps(next), UpdateResolved]);
      r.props == next && r.edit == EditState(false, false, Some(""))
      && r.edit.editValue != Some(next.comment) && r.didPostCount == c.didPostCount + 1
  {
    var c1 := Step(c, SubmitEdit);
    var c2 := Step(c1, ReceiveProps(next));
    var c3 := Step(c2, UpdateResolved);
    assert Run(c, [SubmitEdit, ReceiveProps(next), UpdateResolved])
        == Run(c1, [ReceiveProps(next), UpdateResolved])
        == Run(c2, [UpdateResolved])
        == Run(c3, []);
  }

  /** Nothing blocks a second submit while the first is outstanding: two
      submits in a row issue the same request twice. */
  lemma SecondSubmitIssuesSecondCall(c: Config)
    requires SubmitRequest(c.props, c.edit).Some?
    ensures var call := SubmitRequest(c.props, c.edit).value;
      var r := Run(c, [SubmitEdit, SubmitEdit]);
      r.calls == c.calls + [call, call] && r.outstanding == c.outstanding + 2 && r.edit == c.edit
  {
  }
}
