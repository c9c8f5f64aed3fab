/** The collapsible "add" form used for new lists and new cards
    (src/components/board/AddForm.tsx): a button that opens a text field, and
    the field's submit and cancel. The board page passes the submitted text
    to `handleAddList` or `handleAddCard` (`BoardOps.AddList`,
    `BoardOps.AddCard`). */
module AddForm {
  import opened Records
  import opened Text
  import opened CardOrder
  import BoardOps

  /** The form's own state: its `isOpen` flag and the text typed so far. */
  datatype Form = Form(open: bool, value: string)

  const Closed := Form(false, "")

  /** `actualIsOpen`: a parent that passes `isOpen` decides; otherwise the
      form's own flag does. */
  function ActualIsOpen(controlled: Option<bool>, f: Form): (r: bool)
    ensures controlled.Some? ==> r == controlled.value
    ensures controlled.None? ==> r == f.open
  {
    if controlled.Some? then controlled.value else f.open
  }

  /** What a handler does: the new state, the text passed to `onSubmit` (if
      any), and whether `onCancel` was called. */
  datatype Emit = Emit(form: Form, submitted: Option<string>, cancelled: bool)

  /** `handleSubmit`: blank text is ignored; otherwise the trimmed text is
      submitted, the field is emptied, and a form that keeps its own state
      closes. */
  function Submit(f: Form, controlled: Option<bool>): (r: Emit)
    ensures AllSpace(f.value) ==> r == Emit(f, None, false)
    ensures !AllSpace(f.value) ==> r.submitted == Some(Trim(f.value)) && r.form.value == "" && !r.cancelled
    ensures !AllSpace(f.value) ==> r.form.open == (controlled.Some? && f.open)
    ensures r.submitted.Some? ==> r.submitted.value != "" && Tight(r.submitted.value)
  {
    var t := Trim(f.value);
    if t == "" then Emit(f, None, false)
    else Emit(Form(if controlled.None? then false else f.open, ""), Some(t), false)
  }

  /** `handleCancel`: the field is emptied, a form that keeps its own state
      closes, and the parent's `onCancel` is called. */
  function Cancel(f: Form, controlled: Option<bool>): (r: Emit)
    ensures r.form.value == "" && r.submitted.None? && r.cancelled
    ensures r.form.open == (controlled.Some? && f.open)
  {
    Emit(Form(if controlled.None? then false else f.open, ""), None, true)
  }

  /** `handleKeyDown`: Escape cancels; other keys only type. */
  function KeyDown(f: Form, controlled: Option<bool>, key: BoardOps.Key): (r: Emit)
    ensures key.name == "Escape" ==> r == Cancel(f, controlled)
    ensures key.name != "Escape" ==> r == Emit(f, None, false)
  {
    if key.name == "Escape" then Cancel(f, controlled) else Emit(f, None, false)
  }

  /** The button shown while the form is closed sets the form's own flag. */
  function OpenButton(f: Form): (r: Form)
    ensures r.open && r.value == f.value
  {
    f.(open := true)
  }

  /** A form without a controlling parent goes back to its button after a
      submit or a cancel, and opens again from it; a controlled form ignores
      its own flag, so its button changes nothing on screen. */
  lemma OwnStateCycle(f: Form, key: BoardOps.Key, b: bool)
    ensures !AllSpace(f.value) ==> !ActualIsOpen(None, Submit(f, None).form)
    ensures !ActualIsOpen(None, Cancel(f, None).form)
    ensures key.name == "Escape" ==> KeyDown(f, None, key).form == Closed
    ensures ActualIsOpen(None, OpenButton(f))
    ensures ActualIsOpen(Some(b), OpenButton(f)) == ActualIsOpen(Some(b), f)
  {
  }

  /** A blank submit changes nothing, and submitting twice submits once: the
      second submit finds an empty field. */
  lemma SubmitOnce(f: Form, controlled: Option<bool>)
    ensures Submit(Submit(f, controlled).form, controlled).submitted.None?
  {
    assert AllSpace("");
  }

  /** The card form of a list: what is inserted is the trimmed text, at the
      end of the list, and re-trimming it changes nothing. */
  lemma SubmitAddsCard(p: BoardOps.Page, f: Form, listId: Id, reply: Reply<Card>)
    requires !AllSpace(f.value)
    ensures var t := Submit(f, None).submitted.value;
      && BoardOps.AddCard(p, listId, t, reply).requests ==
           [BoardOps.InsertCard(listId, Trim(f.value), |CardsForList(p.cards, listId)|)]
      && Trim(t) == t
  {
    TrimIdempotent(f.value);
  }

  /** The list form: on a board route it inserts a list with the trimmed text
      after the last list. */
  lemma SubmitAddsList(p: BoardOps.Page, f: Form, boardId: Id, reply: Reply<List>)
    requires !AllSpace(f.value) && boardId != ""
    ensures var t := Submit(f, None).submitted.value;
      BoardOps.AddList(p, Some(boardId), t, reply).requests == [BoardOps.InsertList(boardId, Trim(f.value), |p.lists|)]
  {
  }
}
