/** The dialog that edits one card (src/components/board/CardModal.tsx): the
    title and description drafts, the keys that save or discard them, and the
    two-step delete. The update object the dialog emits is applied by the
    board page's `handleUpdateCard` (`BoardOps.UpdateCard`). */
module CardModal {
  import opened Records
  import opened Text
  import BoardOps

  /** The dialog's state: the card it was opened on (kept current by the
      board page), the two drafts, the two edit modes and the delete prompt. */
  datatype Modal = Modal(
    card: Card,
    title: string,
    description: string,
    editingTitle: bool,
    editingDescription: bool,
    confirmDelete: bool)

  /** `card.description || ''`: a missing description edits as empty text. */
  function OrEmpty(d: Option<string>): (r: string)
    ensures d.Some? ==> r == d.value
    ensures d.None? ==> r == ""
  {
    if d.Some? then d.value else ""
  }

  /** The dialog as it opens (lines 13-17): drafts equal to the card, nothing
      being edited. */
  function Open(card: Card): (r: Modal)
    ensures r.card == card && r.title == card.title && r.description == OrEmpty(card.description)
    ensures !r.editingTitle && !r.editingDescription && !r.confirmDelete
  {
    Modal(card, card.title, OrEmpty(card.description), false, false, false)
  }

  /** What a handler does: the new state, the update object passed to
      `onUpdate` (if any), and whether `onDelete` ran. */
  datatype Emit = Emit(modal: Modal, update: Option<BoardOps.CardPatch>, deleted: bool)

  // ---------------------------------------------------------------------------
  // Saving (lines 19-31)

  /** `handleTitleSave`: a draft that is not blank and differs from the card's
      title is sent trimmed; title editing ends either way. */
  function TitleSave(m: Modal): (r: Emit)
    ensures r.modal == m.(editingTitle := false) && !r.deleted
    ensures r.update.Some? <==> !AllSpace(m.title) && m.title != m.card.title
    ensures r.update.Some? ==> r.update.value == BoardOps.CardPatch(Some(Trim(m.title)), BoardOps.Absent)
    ensures r.update.Some? ==> Trim(m.title) != "" && Tight(Trim(m.title))
  {
    var t := Trim(m.title);
    var update := if t != "" && m.title != m.card.title then Some(BoardOps.CardPatch(Some(t), BoardOps.Absent)) else None;
    Emit(m.(editingTitle := false), update, false)
  }

  /** `handleDescriptionSave` as written: a changed draft is sent as
      `description || undefined`, so an emptied draft is sent as `undefined`. */
  function DescriptionSave(m: Modal): (r: Emit)
    ensures r.modal == m.(editingDescription := false) && !r.deleted
    ensures r.update.Some? <==> m.description != OrEmpty(m.card.description)
    ensures r.update.Some? && m.description != "" ==>
      r.update.value == BoardOps.CardPatch(None, BoardOps.Value(m.description))
    ensures r.update.Some? && m.description == "" ==>
      r.update.value == BoardOps.CardPatch(None, BoardOps.Undefined)
  {
    var update :=
      if m.description == OrEmpty(m.card.description) then None
      else if m.description == "" then Some(BoardOps.CardPatch(None, BoardOps.Undefined))
      else Some(BoardOps.CardPatch(None, BoardOps.Value(m.description)));
    Emit(m.(editingDescription := false), update, false)
  }

  /** The same handler sending `null` for an emptied draft, which the board
      page's update type (`description?: string | null`) allows. */
  function DescriptionSaveFixed(m: Modal): (r: Emit)
    ensures r.modal == m.(editingDescription := false) && !r.deleted
    ensures r.update.Some? <==> m.description != OrEmpty(m.card.description)
    ensures r.update.Some? ==> !r.update.value.description.Undefined? && r.update.value.title.None?
    ensures r.update.Some? && m.description == "" ==>
      r.update.value == BoardOps.CardPatch(None, BoardOps.Null)
  {
    var update :=
      if m.description == OrEmpty(m.card.description) then None
      else if m.description == "" then Some(BoardOps.CardPatch(None, BoardOps.Null))
      else Some(BoardOps.CardPatch(None, BoardOps.Value(m.description)));
    Emit(m.(editingDescription := false), update, false)
  }

  // ---------------------------------------------------------------------------
  // What the store receives

  /** The update object as it reaches the store: `JSON.stringify` leaves out a
      key whose value is `undefined`, so the store does not touch that column. */
  function Wire(u: BoardOps.CardPatch): (r: BoardOps.CardPatch)
    ensures r.title == u.title
    ensures u.description.Undefined? ==> r.description.Absent?
    ensures !u.description.Undefined? ==> r.description == u.description
  {
    if u.description.Undefined? then u.(description := BoardOps.Absent) else u
  }

  /** The stored row after `update(u)` on card `c`. */
  function StoredCard(c: Card, u: BoardOps.CardPatch): (r: Card)
    ensures r.id == c.id && r.listId == c.listId && r.position == c.position
  {
    BoardOps.Spread(c, Wire(u))
  }

  /** The board page's copy of a card and the stored row agree after an
      update exactly unless the update carries `undefined` for a description
      the card has. */
  lemma ViewMatchesStore(c: Card, u: BoardOps.CardPatch)
    ensures BoardOps.Spread(c, u) == StoredCard(c, u) <==> !(u.description.Undefined? && c.description.Some?)
  {
    if u.description.Undefined? && c.description.Some? {
      assert StoredCard(c, u).description == c.description;
    }
  }

  /** As written: emptying a description and saving clears it on the board
      page, while the stored row keeps the old text, which comes back on the
      next load of the board. */
  lemma ClearedDescriptionComesBack(p: BoardOps.Page, m: Modal, i: int)
    requires 0 <= i < |p.cards| && p.cards[i] == m.card
    requires m.card.description.Some? && m.card.description.value != "" && m.description == ""
    ensures var u := DescriptionSave(m).update;
      && u == Some(BoardOps.CardPatch(None, BoardOps.Undefined))
      && BoardOps.UpdateCard(p, m.card.id, u.value, false).page.cards[i].description.None?
      && StoredCard(m.card, u.value).description == m.card.description
  {
  }

  /** Fixed: whatever the dialog sends, the board page and the store end with
      the same row, and an emptied description is cleared in both. */
  lemma FixedDescriptionStored(p: BoardOps.Page, m: Modal, i: int)
    requires 0 <= i < |p.cards| && p.cards[i] == m.card
    ensures var u := DescriptionSaveFixed(m).update;
      u.Some? ==>
        && BoardOps.UpdateCard(p, m.card.id, u.value, false).page.cards[i] == StoredCard(m.card, u.value)
        && OrEmpty(StoredCard(m.card, u.value).description) == m.description
  {
    var u := DescriptionSaveFixed(m).update;
    if u.Some? {
      ViewMatchesStore(m.card, u.value);
    }
  }

  // ---------------------------------------------------------------------------
  // Keys and buttons (lines 33-44, 69, 102-107, 120-123, 131, 144-166)

  /** The title input's `handleKeyDown`: Enter without Shift saves; Escape
      puts both drafts back to the card and leaves both edit modes. */
  function TitleKey(m: Modal, key: BoardOps.Key): (r: Emit)
    ensures key.name == "Enter" && !key.shift ==> r == TitleSave(m)
    ensures key.name == "Escape" ==> r == Emit(Discard(m), None, false)
    ensures !(key.name == "Enter" && !key.shift) && key.name != "Escape" ==> r == Emit(m, None, false)
  {
    if key.name == "Enter" && !key.shift then TitleSave(m)
    else if key.name == "Escape" then Emit(Discard(m), None, false)
    else Emit(m, None, false)
  }

  /** Escape in the title input: both drafts go back to the card. */
  function Discard(m: Modal): (r: Modal)
    ensures r.title == m.card.title && r.description == OrEmpty(m.card.description)
    ensures !r.editingTitle && !r.editingDescription
    ensures r.card == m.card && r.confirmDelete == m.confirmDelete
  {
    m.(title := m.card.title, description := OrEmpty(m.card.description),
       editingTitle := false, editingDescription := false)
  }

  /** Escape in the description box, and its Cancel button: only the
      description draft goes back. */
  function DiscardDescription(m: Modal): (r: Modal)
    ensures r == m.(description := OrEmpty(m.card.description), editingDescription := false)
  {
    m.(description := OrEmpty(m.card.description), editingDescription := false)
  }

  /** Every interaction the dialog offers. An event on an element that is not
      on screen (the title input while the title is not being edited, the
      confirm buttons while the prompt is closed, ...) cannot happen and
      changes nothing. */
  datatype Event =
    | ClickTitle
    | TypeTitle(text: string)
    | TitleBlur
    | TitleKeyDown(key: BoardOps.Key)
    | ClickDescription
    | TypeDescription(text: string)
    | DescriptionBlur
    | DescriptionEscape
    | SaveDescription
    | CancelDescription
    | AskDelete
    | ConfirmDelete
    | CancelDelete

  /** The dialog's response to one event; `fixed` selects the description
      save that sends `null`. */
  function Handle(m: Modal, e: Event, fixed: bool): (r: Emit)
    ensures r.deleted <==> e.ConfirmDelete? && m.confirmDelete
    ensures r.update.Some? ==> e.TitleBlur? || e.TitleKeyDown? || e.DescriptionBlur? || e.SaveDescription?
    ensures r.modal.card == m.card
  {
    match e
    case ClickTitle => Emit(if m.editingTitle then m else m.(editingTitle := true), None, false)
    case TypeTitle(t) => Emit(if m.editingTitle then m.(title := t) else m, None, false)
    case TitleBlur => if m.editingTitle then TitleSave(m) else Emit(m, None, false)
    case TitleKeyDown(k) => if m.editingTitle then TitleKey(m, k) else Emit(m, None, false)
    case ClickDescription =>
      Emit(if m.editingDescription then m else m.(editingDescription := true), None, false)
    case TypeDescription(t) => Emit(if m.editingDescription then m.(description := t) else m, None, false)
    case DescriptionBlur | SaveDescription =>
      if !m.editingDescription then Emit(m, None, false)
      else if fixed then DescriptionSaveFixed(m)
      else DescriptionSave(m)
    case DescriptionEscape | CancelDescription =>
      Emit(if m.editingDescription then DiscardDescription(m) else m, None, false)
    case AskDelete => Emit(if m.confirmDelete then m else m.(confirmDelete := true), None, false)
    case ConfirmDelete => Emit(m, None, m.confirmDelete)
    case CancelDelete => Emit(m.(confirmDelete := false), None, false)
  }

  /** A run of events: the final state, the last update sent during the run
      (earlier ones are not kept), and whether the card was deleted. A run
      stops at the deletion. */
  function Run(m: Modal, es: seq<Event>, fixed: bool): (r: Emit)
    decreases |es|
  {
    if |es| == 0 then Emit(m, None, false)
    else
      var first := Handle(m, es[0], fixed);
      if first.deleted then first
      else
        var rest := Run(first.modal, es[1..], fixed);
        Emit(rest.modal, if rest.update.Some? then rest.update else first.update, rest.deleted)
  }

  /** A card is deleted only through the prompt: no single interaction with a
      freshly opened dialog deletes it, and a deleting run contains a request
      for the prompt before the confirmation. */
  lemma {:induction false} DeleteNeedsPrompt(m: Modal, es: seq<Event>, fixed: bool)
    requires !m.confirmDelete
    ensures Run(m, es, fixed).deleted ==>
      exists i, j :: 0 <= i < j < |es| && es[i].AskDelete? && es[j].ConfirmDelete?
    decreases |es|
  {
    if |es| > 0 && Run(m, es, fixed).deleted {
      var first := Handle(m, es[0], fixed);
      assert !first.deleted;
      if first.modal.confirmDelete {
        assert es[0].AskDelete?;
        FirstConfirm(first.modal, es[1..], fixed);
        var j :| 0 <= j < |es[1..]| && es[1..][j].ConfirmDelete?;
        assert es[j + 1].ConfirmDelete?;
      } else {
        DeleteNeedsPrompt(first.modal, es[1..], fixed);
        var i, j :| 0 <= i < j < |es[1..]| && es[1..][i].AskDelete? && es[1..][j].ConfirmDelete?;
        assert es[i + 1].AskDelete? && es[j + 1].ConfirmDelete?;
      }
    }
  }

  /** A deleting run contains a confirmation. */
  lemma {:induction false} FirstConfirm(m: Modal, es: seq<Event>, fixed: bool)
    requires Run(m, es, fixed).deleted
    ensures exists j :: 0 <= j < |es| && es[j].ConfirmDelete?
    decreases |es|
  {
    var first := Handle(m, es[0], fixed);
    if first.deleted {
      assert es[0].ConfirmDelete?;
    } else {
      FirstConfirm(first.modal, es[1..], fixed);
      var j :| 0 <= j < |es[1..]| && es[1..][j].ConfirmDelete?;
      assert es[j + 1].ConfirmDelete?;
    }
  }

  /** Escape in the title input discards both drafts: a save right after it
      sends nothing. */
  lemma EscapeThenSaveSendsNothing(m: Modal)
    ensures var d := TitleKey(m, BoardOps.Key("Escape", false)).modal;
      TitleSave(d).update.None? && DescriptionSave(d).update.None? && DescriptionSaveFixed(d).update.None?
  {
  }

  /** Once the board page has applied a title update, saving the same draft
      again sends nothing new: either nothing or the same trimmed title. */
  lemma TitleSaveSettles(m: Modal)
    requires TitleSave(m).update.Some?
    ensures var u := TitleSave(m).update.value;
      var again := TitleSave(m.(card := BoardOps.Spread(m.card, u))).update;
      again.None? || again == Some(u)
  {
  }

  /** Once the board page has applied a description update, the draft equals
      the card's description, so saving again sends nothing. */
  lemma DescriptionSaveSettles(m: Modal, fixed: bool)
    ensures var u := (if fixed then DescriptionSaveFixed(m) else DescriptionSave(m)).update;
      u.Some? ==>
        var m2 := m.(card := BoardOps.Spread(m.card, u.value));
        DescriptionSave(m2).update.None? && DescriptionSaveFixed(m2).update.None?
  {
  }
}
