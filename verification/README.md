# Trello clone board logic in Dafny

This project models the client-side logic of a Trello-style board application,
a React and TypeScript front end over a hosted table store. Each event handler
becomes a pure function. It takes the component's state and the store's reply,
and returns the new state and the writes sent to the store, in issue order.

The model covers:

- **Board page** (`Drag`, `DragProofs`, `DropCases`, `Hover`, `BoardOps`,
  `CardOrder`). This is the card-ordering engine: `getCardsForList`,
  `handleDragOver` and `handleDragEnd` with both branches and their update
  log. `BoardOps.HandleDragEnd` runs the drop as written, on the cards as the
  page holds them after any hover; the corrected drop of Finding 1 is kept
  apart as `Hover.DragEndFromStart` and `BoardOps.FixedHandleDragEnd`. The
  page also covers the list and card add, rename, update and delete handlers
  and the board title editor.
- **Join page** (`JoinBoard`). The ordered invite checks, the join step, and
  which screen the page shows.
- **Invite dialog** (`Invite`). Code generation from given random indices,
  the invite link, the "Uses" line, and the fetch and generate handlers.
- **Members strip** (`Members`). Initials, avatar colour, the first five
  avatars and the "+n" badge, and member removal.
- **Card dialog** (`CardModal`), **list column** (`ListView`) and **add form**
  (`AddForm`). Save guards, key handling, menus, the two-step delete, and the
  open, submit and cancel cycle.
- **Dashboard** (`Dashboard`). Loading, creating, renaming and deleting
  boards through the three dialogs.

Shared pieces:

- `Records` holds the row types.
- `Seqs` holds `filter` and `findIndex`.
- `Text` holds JavaScript `trim`, upper-casing and number printing.

The drag properties hold on a *valid board* (`Drag.ValidBoard`): card ids are
unique, and no card id is also a list id. The model assumes this rather than
deriving it: the store keys each table separately, and the ids are random
uuids, which in practice never collide within or across tables. The handlers
themselves are modelled for every input, valid board or not.

Behaviour of the drag engine worth knowing:

- Every card of a renumbered list is written, not only the rows whose
  position or list changed (`DropCases.DropOnSameListCardEffect`,
  `DropCases.DropOnOtherListCardLog`).
- A drop outside every target returns early (src/pages/Board.tsx:237), and a
  drop onto the dragged card itself passes over both branches
  (src/pages/Board.tsx:262, 297). Neither undoes the hover. A drag cancelled
  with Escape runs no handler at all (only start, over and end are wired, at
  src/pages/Board.tsx:401-406), so it does not undo the hover either. A list
  change shown by the hover stays on the page while nothing is written
  (`BoardOps.DropNowhereKeepsHover`; `BoardOps.DropNowhere` is the case
  without a hover).
- Once the hover has moved the card, the drop takes the same-list branch. The
  source list is then not renumbered, and the list change is never written
  (`BoardOps.DragSession`). This is Finding 1.
- A drop on an id that is neither a list nor a card moves the card to the top
  of its own list (`DropCases.DropOnUnknown`).

## Model

| member | source | states |
|---|---|---|
| CardOrder.CardsForList | src/pages/Board.tsx:100-103 | The cards shown for a list are exactly the cards of that list, each as often as it occurs, in non-decreasing position order. |
| CardOrder.CardsForListMembers | src/pages/Board.tsx:100-103 | A card is shown for list `l` if and only if it is on the board and belongs to `l`. |
| CardOrder.SortByPosition | src/pages/Board.tsx:101 | The comparator sort returns a position-ordered permutation of its input; its stability is stated by `CardOrder.SortStable`. |
| CardOrder.SortKeepsSorted | src/pages/Board.tsx:101 | An array already in position order comes back unchanged. |
| CardOrder.SortStable | src/pages/Board.tsx:101 | The sort is stable: for every position, the cards at that position come out in the order they went in. |
| CardOrder.SortFilter | src/pages/Board.tsx:299-301 | Sorting and then filtering gives the same cards as filtering and then sorting. |
| CardOrder.IndexOfId | src/pages/Board.tsx:263-264 | `findIndex` returns -1 exactly when no card has the id; otherwise it returns the first index holding it. |
| CardOrder.FindCard | src/pages/Board.tsx:239 | `find` returns nothing exactly when no card has the id; otherwise it returns the first card of the array with that id. |
| CardOrder.FindUnique | src/pages/Board.tsx:239 | With unique ids, `find` returns the very card, and filtering by its id leaves only that card. |
| CardOrder.Renumber | src/pages/Board.tsx:279 | Renumbering gives positions 0..n-1. It keeps the ids in the same order and changes no card's content or list. |
| CardOrder.RenumberDense | src/pages/Board.tsx:308 | Renumbering an already dense list changes nothing. |
| CardOrder.ArrayMove | src/pages/Board.tsx:268 | `arrayMove` permutes the list. The moved card lands at the target index, and the other cards keep their relative order. |
| CardOrder.JsIndex | src/pages/Board.tsx:305-307 | `slice` counts a negative index from the end, keeps an index within 0..length, and clamps an index past the end to the length and one before the start to 0. |
| CardOrder.TakeDrop | src/pages/Board.tsx:305-307 | `slice(0, k)` followed by `slice(k)` is the whole array, for every `k`. |
| CardOrder.AppendShown | src/pages/Board.tsx:167 | An appended card whose position is not below its list's cards shows last in that list. |
| Drag.MoveToOtherList | src/pages/Board.tsx:225-229 | Only cards with the dragged id get the new list; every other card is unchanged. |
| Drag.DragOver | src/pages/Board.tsx:204-231 | The hover changes no position and no content, and touches no card other than the dragged one. Without a target it changes nothing. |
| Hover.HoverEffect | src/pages/Board.tsx:204-231 | The hover moves exactly the dragged card into the hovered list, only when that list differs from the card's own. The board stays valid, and putting the card back restores the array. |
| Drag.Reorder | src/pages/Board.tsx:266-286 | The same-list branch writes one position per card of the list: position k for the k-th card in `arrayMove` order. The array keeps the other lists' cards and holds exactly as many cards of the list as before. |
| Drag.Insert | src/pages/Board.tsx:297-351 | The first write moves the dragged card to the target list at the insertion index. Every later write sets a position only, so no other card can change list. |
| Drag.DragEnd | src/pages/Board.tsx:233-353 | Without a drop target, or for a card not on the board, the drop changes nothing and writes nothing. In every case the only write that can change a card's list is the dragged card's. |
| DropCases.DropIgnored | src/pages/Board.tsx:233-240 | A drop without a target, for an unknown card, or onto the card itself changes nothing and writes nothing. |
| DropCases.DropOnSameListCard | src/pages/Board.tsx:262-286 | A drop on another card of the same list takes the reorder branch with both indices in range. |
| DragProofs.ReorderEffect | src/pages/Board.tsx:266-286 | Reorder shows the list in `arrayMove` order, renumbered 0..n-1, with the dragged card at the target index. Other lists and all ids are kept, and every card of the list is written in the new order. |
| DropCases.DropOnSameListCardEffect | src/pages/Board.tsx:262-286 | A same-list drop shows the dragged card at the index of the card it was dropped on, renumbered densely. Other lists are unchanged, no card is lost or changes content or list, and the log writes the whole list in order. |
| DropCases.ReorderExample | src/pages/Board.tsx:266-286 | With A, B, C at positions 0, 1, 2, dropping A on C gives B(0), C(1), A(2) and writes those positions in that order. |
| DropCases.InsertExample | src/pages/Board.tsx:297-351 | Take A and B at positions 0 and 1 of one list and X at position 0 of another. Dropping A on X shows A, X at positions 0, 1 in X's list and B alone at position 0 in the old list. It writes A's move, then X's position, then B's. |
| DropCases.DropOnOtherListCard | src/pages/Board.tsx:262-297 | A drop on a card of another list takes the insertion branch at that card's index. |
| DropCases.DropOnOtherListCardEffect | src/pages/Board.tsx:289-331 | A cross-list drop shows the target list as its cards in their shown order with the dragged card spliced in at the index of the card it was dropped on, that card right after it, renumbered densely. The source list shows its other cards in their shown order, renumbered densely; every other list and every card is kept, and the first write moves the card. |
| DropCases.DropOnOtherListCardLog | src/pages/Board.tsx:333-351 | A cross-list drop writes in a fixed order: first the dragged card's list and position, then the other target cards in their new order, then the source list's cards in their new order. |
| DropCases.DropOnList | src/pages/Board.tsx:291-294 | A drop on a list inserts the card after all other cards of that list, at 0 for an empty list. |
| DropCases.DropOnListEffect | src/pages/Board.tsx:291-351 | A drop on a list shows that list as its other cards in their shown order followed by the dragged card, renumbered densely. On a cross-list drop the source list shows its other cards in order, renumbered densely. Every other list and every card is kept, and the log is the move, then the target list's other cards, then the renumbered source list. |
| DropCases.DropOnUnknown | src/pages/Board.tsx:246-260 | A drop on an id that is neither a list nor a card inserts the card at index 0 of its own list. |
| DropCases.DropOnUnknownEffect | src/pages/Board.tsx:297-337 | A drop on an unknown id shows the card first in its own list, followed by the list's other cards in their shown order, renumbered densely. Every other list and every card is kept, and the log is the move followed by the other cards' positions. |
| DragProofs.InsertAcrossEffect | src/pages/Board.tsx:297-331 | Inserting into another list at any index within range shows the target as its other cards in order with the card spliced in there, and the source as its other cards in order, both renumbered densely. Other lists and every card are kept, and the first write moves the card. |
| DragProofs.InsertWithinEffect | src/pages/Board.tsx:297-316 | Inserting into the card's own list shows the list as its other cards in order with the card spliced in at the index, renumbered densely; other lists and every card are kept, and the first write moves the card. |
| DragProofs.AcrossShowsLists | src/pages/Board.tsx:303-335 | After a cross-list insertion the target list shows the spliced, renumbered siblings and the source list shows its remaining cards in order, renumbered; every other list shows what it showed. |
| DragProofs.WithinShowsList | src/pages/Board.tsx:303-320 | After an insertion into the card's own list, that list shows the spliced, renumbered siblings and every other list shows what it showed. |
| DropCases.DropPreservesBoard | src/pages/Board.tsx:233-353 | Any drop on a valid board keeps every card, changes no content, and moves only the dragged card between lists. Each list is kept or renumbered densely, and the board stays valid. |
| Hover.ApplyUpdate | src/pages/Board.tsx:285 | A write changes only the row with its id: its position, and its list for a move. |
| Hover.DropStoresShownList | src/pages/Board.tsx:233-353 | Without a hover in between, the store ends with the dragged card in the list the board shows it in. |
| Hover.HoverThenDropLosesMove | src/pages/Board.tsx:223-286 | As written, a hover into another list followed by a drop on a card there shows the card in the new list. The drop writes positions only, so the store keeps the old list. |
| Hover.HoverThenDropExample | src/pages/Board.tsx:223-286 | Concretely: card `a` hovered over and dropped on card `x` of list `t` is shown in `t` and stored in `s`. |
| Hover.FixedDropStoresShownList | src/pages/Board.tsx:196-353 | Deciding the drop from the card as it was at drag start makes the drop independent of the hover, and the store agrees with the board. |
| Hover.DragEndFromStart | src/pages/Board.tsx:233-353 | The corrected drop writes nothing without a target, and the only write that can change a card's list is the dragged card's. |
| BoardOps.DragStart | src/pages/Board.tsx:196-202 | Drag start records the card with the dragged id, if any, and changes nothing else. |
| BoardOps.HandleDragEnd | src/pages/Board.tsx:233-237 | The drop, run on the page's current cards, clears the active card in every case and changes only the cards and the active card. |
| BoardOps.DragWithoutHover | src/pages/Board.tsx:196-353 | A start and a drop with no hover between leave a valid board with every card kept, and the store agrees with the page on the dragged card's list. |
| BoardOps.DragSession | src/pages/Board.tsx:204-286 | As written, a start, a hover over a card of another list and a drop on it leave a valid board showing the card in the new list, while only positions are written and the store keeps the card in its old list. |
| BoardOps.DropNowhere | src/pages/Board.tsx:235-237 | Right after drag start, a drop outside every target or onto the card itself writes nothing and keeps the cards. |
| BoardOps.DropNowhereKeepsHover | src/pages/Board.tsx:204-237 | After a hover into another list, a drop outside every target writes nothing: the page shows the card in the hovered list while the store keeps it in its old list. |
| BoardOps.FixedHandleDragEnd | src/pages/Board.tsx:233-237 | The corrected drop, decided on the cards from drag start, clears the active card and changes only the cards and the active card. |
| BoardOps.FixedDragSession | src/pages/Board.tsx:196-353 | Corrected, a start, any hover and a drop give exactly the drop computed on the cards from before the drag, leave a valid board with every card kept, and the store agrees with the page on the dragged card's list. |
| BoardOps.SaveBoardTitle | src/pages/Board.tsx:106-112 | The trimmed title is written exactly when it is not blank, differs from the stored title, and a board is loaded. Editing ends in every case. |
| BoardOps.SaveBoardTitleStable | src/pages/Board.tsx:106-112 | A second save with the same draft leaves the page as the first save left it. |
| BoardOps.BoardTitleKey | src/pages/Board.tsx:379-384 | Enter saves. Escape resets the draft to the board's title without writing. |
| BoardOps.EscapeThenSaveWritesNothing | src/pages/Board.tsx:379-384 | A save right after Escape writes nothing. |
| BoardOps.AddList | src/pages/Board.tsx:115-130 | Without a board id nothing happens. Otherwise one list insert at position `lists.length` is sent, and the returned row is appended unless the insert failed. |
| BoardOps.AddListKeepsDense | src/pages/Board.tsx:117 | When the store returns the requested row, list positions stay 0..n-1. |
| BoardOps.RenameList | src/pages/Board.tsx:132-140 | Only the list with that id takes the new title, and only on success. |
| BoardOps.RenameKeepsLayout | src/pages/Board.tsx:138 | A rename keeps the lists' ids, order and positions. |
| BoardOps.DeleteList | src/pages/Board.tsx:142-151 | On success the list and all its cards are removed, and nothing is renumbered. On failure nothing changes. |
| BoardOps.DeleteListEffect | src/pages/Board.tsx:148-149 | After the delete no list has the id and no card is in it, while every other list shows exactly what it showed. |
| BoardOps.AddCard | src/pages/Board.tsx:154-169 | The insert asks for position equal to the list's current card count, and the returned row is appended unless the insert failed. |
| BoardOps.AddCardAppends | src/pages/Board.tsx:155-167 | On a list numbered 0..n-1, the new card shows last and the numbering stays dense. |
| BoardOps.AddCardKeepsOthers | src/pages/Board.tsx:167 | Adding a card leaves every other list's cards as they were. |
| BoardOps.Spread | src/pages/Board.tsx:177 | A field present in the patch overwrites the card's field, including an `undefined` description. Id, list and position are kept. |
| BoardOps.UpdateCard | src/pages/Board.tsx:171-182 | On success exactly the cards with that id take the patch, and so does the open card if it is that card. On failure nothing changes. |
| BoardOps.PatchSelected | src/pages/Board.tsx:178-180 | The open card is patched only when it is the updated card. |
| BoardOps.UpdateCardKeepsPlace | src/pages/Board.tsx:177 | An update never moves a card: ids, lists and positions are kept. |
| BoardOps.DeleteCard | src/pages/Board.tsx:184-193 | On success the card is filtered out and the dialog closes. |
| BoardOps.DeleteCardShows | src/pages/Board.tsx:190 | Every list shows what it showed minus the deleted card, in the same order. |
| BoardOps.DeleteCardLeavesGap | src/pages/Board.tsx:190 | Deleting the first card of a dense list of two or more leaves a list starting at position 1. |
| Text.Trim | src/pages/Dashboard.tsx:47 | `trim` returns a string with no white space at either end. It is empty exactly when the input is all white space. |
| Text.TrimInfix | src/pages/Dashboard.tsx:52 | The trimmed title is a contiguous piece of the typed text, and only white space is cut off around it. |
| Text.TrimIdempotent | src/components/board/AddForm.tsx:34-35 | Trimming a trimmed string changes nothing. |
| Text.NatToStringValue | src/components/board/InviteModal.tsx:142 | A printed count reads back as the same number. |
| Text.IntToStringInjective | src/components/board/InviteModal.tsx:142 | Different numbers print differently. |
| Invite.BuildCode | src/components/board/InviteModal.tsx:18-22 | The loop appends one alphabet character per random index, in order. |
| Invite.GenerateInviteCode | src/components/board/InviteModal.tsx:16-23 | A code has exactly 8 characters, all from the 55-character alphabet. |
| Invite.AlphabetMembers | src/components/board/InviteModal.tsx:17 | Every alphabet character lies in the allowed ranges, at the index the range arithmetic gives. |
| Invite.AlphabetComplete | src/components/board/InviteModal.tsx:17 | Every character in the allowed ranges occurs in the alphabet. |
| Invite.NoLookAlikes | src/components/board/InviteModal.tsx:17 | No code contains 0, 1, I, O, i, l or o. |
| Invite.CodeRecoversDraws | src/components/board/InviteModal.tsx:16-23 | Each character of a code gives back the random index it was drawn with. |
| Invite.CodeInjective | src/components/board/InviteModal.tsx:16-23 | Different random indices give different codes. |
| Invite.InviteUrl | src/components/board/InviteModal.tsx:102-104 | The link is empty exactly when there is no invite. Otherwise it is the origin, `/join/` and the code. |
| Invite.JoinRouteCode | src/components/board/InviteModal.tsx:102-104 | A parsed link is the origin, `/join/` and a non-empty code without a slash. |
| Invite.LinkRoundTrip | src/components/board/InviteModal.tsx:102-104 | The link of a generated code leads back to exactly that code. |
| Invite.LimitSuffix | src/components/board/InviteModal.tsx:142 | ` / max` is appended exactly when `max_uses` is truthy, that is set and non-zero. |
| Invite.UsesLabel | src/components/board/InviteModal.tsx:142 | The line starts with `Uses: `. |
| Invite.UsesLabelReadBack | src/components/board/InviteModal.tsx:142 | Equal lines mean equal use counts, and either both have no limit or both have the same limit. |
| Invite.FetchInvite | src/components/board/InviteModal.tsx:38-59 | An error is logged exactly when its code is not PGRST116. The shown invite is replaced only by a returned row, and loading ends. |
| Invite.GenerateNewInvite | src/components/board/InviteModal.tsx:61-86 | As written, a signed-out press raises the busy flag and returns. With a user, a fresh code is inserted and a failure is logged. The shown invite is replaced only by a returned row, and the flag drops. |
| Invite.GenerateNewInviteFixed | src/components/board/InviteModal.tsx:61-86 | Corrected, the busy flag is down after every press, and the signed-in path is unchanged. |
| Invite.SignedOutPressStaysBusy | src/components/board/InviteModal.tsx:62-65 | As written, after one signed-out press no later lookup or signed-out press ever clears the busy flag. |
| Invite.SignedOutPressExample | src/components/board/InviteModal.tsx:62-65 | Concretely: the dialog finds no invite, then a signed-out press leaves the button loading. |
| Invite.FixedNeverStaysBusy | src/components/board/InviteModal.tsx:61-86 | Corrected, a dialog that is not busy is not busy after any run of events. |
| Invite.Render | src/components/board/InviteModal.tsx:109-172 | The dialog shows the spinner exactly while loading, and the link exactly when loaded with an invite. The button's loading state is the busy flag. |
| JoinBoard.TitleOrUnknown | src/pages/JoinBoard.tsx:84 | A missing or empty board title becomes 'Unknown Board'; a real title is kept. |
| JoinBoard.FetchInviteInfo | src/pages/JoinBoard.tsx:32-91 | A missing code gives 'Invalid invite link', and a failed or empty lookup gives the invalid or expired message. Loading ends. Accepted information is valid, keeps any earlier error, and marks a member only for a signed-in user. |
| JoinBoard.AcceptedIffRedeemable | src/pages/JoinBoard.tsx:54-88 | A found invite is accepted if and only if it has not expired (expiry strictly before now) and its truthy limit is not used up. Expiry is reported before the limit, and the title falls back to 'Unknown Board'. |
| JoinBoard.BoardPath | src/pages/JoinBoard.tsx:121 | The board route is `/board/` followed by the id. |
| JoinBoard.HandleJoin | src/pages/JoinBoard.tsx:93-122 | Nothing happens without a user and checked invite. Otherwise a 'member' row is inserted. A failure shows the join error and stays; a success navigates to the board. |
| JoinBoard.Redirect | src/pages/JoinBoard.tsx:148-151 | The sign-in and sign-up links start with their page and come back to the join route. |
| JoinBoard.Render | src/pages/JoinBoard.tsx:125-223 | Precedence: the spinner while anything loads, then sign-in, then the error screen, then "already a member", then the invitation. |
| JoinBoard.ValidInviteScreen | src/pages/JoinBoard.tsx:32-223 | A signed-in visitor with a redeemable invite sees the invitation or the member screen. Both lead to the same board. |
| JoinBoard.FailedJoinScreen | src/pages/JoinBoard.tsx:107-112 | A failed join shows the failure message and does not navigate. |
| JoinBoard.SignInComesBack | src/pages/JoinBoard.tsx:134-151 | The links of the sign-in screen return to `/join/` with the same code. |
| JoinBoard.ErrorSticks | src/pages/JoinBoard.tsx:82-88 | An error once set is never cleared by a later successful check, so the error screen stays. |
| Members.Initials | src/components/board/MembersList.tsx:68-71 | A missing or empty name gives '?'. Otherwise the result is the upper-cased first character, never a lower-case letter. |
| Members.AvatarLabel | src/components/board/MembersList.tsx:108 | The label comes from the e-mail when it is non-empty, else from the user id. |
| Members.AvatarLabelQuestion | src/components/board/MembersList.tsx:108 | The label is '?' exactly when there is no name to draw from or the name starts with '?'. |
| Members.FirstCodeUnit | src/components/board/MembersList.tsx:85 | `charCodeAt(0)` is the character itself in the Basic Multilingual Plane and its high surrogate above it. |
| Members.AvatarColor | src/components/board/MembersList.tsx:74-87 | The colour is one of the 8 palette entries, picked by the first code unit mod 8. It is undefined only for the empty id. |
| Members.SameFirstSameColor | src/components/board/MembersList.tsx:85 | Ids with the same first character get the same colour. |
| Members.AstralBlockSameColor | src/components/board/MembersList.tsx:85 | Ids starting above the Basic Multilingual Plane in the same 1024-block share a colour. |
| Members.Shown | src/components/board/MembersList.tsx:99 | At most 5 avatars are shown: the first five members in fetched order. |
| Members.OverflowBadge | src/components/board/MembersList.tsx:140-143 | The badge appears exactly when there are more than 5 members and reads `+(n-5)`. |
| Members.ShownPlusBadge | src/components/board/MembersList.tsx:99-143 | Drawn avatars plus the badge's number add up to all members. |
| Members.RemoveButtons | src/components/board/MembersList.tsx:121 | Remove buttons appear only for the owner, on every drawn member who is not an owner, and on no other member. |
| Members.RemoveMember | src/components/board/MembersList.tsx:47-65 | Removal does nothing unless the viewer is the owner. Otherwise the delete is sent. On success the members with that id leave in order and the parent is notified. The pending marker clears. |
| Members.RemoveMemberExact | src/components/board/MembersList.tsx:60 | After removal no member has the id, and every other member stays as often as before. |
| Members.RemoveMemberIdempotent | src/components/board/MembersList.tsx:60 | Removing the same member twice equals removing it once, and removing an unknown id changes nothing. |
| CardModal.Open | src/components/board/CardModal.tsx:13-17 | The dialog opens with drafts equal to the card (a missing description as empty) and nothing being edited. |
| CardModal.TitleSave | src/components/board/CardModal.tsx:19-24 | An update with the trimmed title is sent if and only if the trimmed title is non-empty and the untrimmed draft differs from the card's. Editing ends. |
| CardModal.DescriptionSave | src/components/board/CardModal.tsx:26-31 | As written, an update is sent if and only if the draft differs from `description or ''`. An emptied draft is sent as `undefined`. |
| CardModal.DescriptionSaveFixed | src/components/board/CardModal.tsx:26-31 | Corrected, the same guard applies, and an emptied draft is sent as `null`, never `undefined`. |
| CardModal.Wire | src/pages/Board.tsx:172 | A key whose value is `undefined` does not reach the store; everything else does. |
| CardModal.StoredCard | src/pages/Board.tsx:172 | A stored update never moves the row. |
| CardModal.ViewMatchesStore | src/pages/Board.tsx:171-180 | The page's copy and the stored row agree after an update if and only if the update does not carry `undefined` for a description the card has. |
| CardModal.ClearedDescriptionComesBack | src/components/board/CardModal.tsx:28 | As written, clearing a description clears it on the page while the store keeps the old text. |
| CardModal.FixedDescriptionStored | src/components/board/CardModal.tsx:26-31 | Corrected, the page and the store hold the same row after every description save, and a cleared description is cleared in both. |
| CardModal.TitleKey | src/components/board/CardModal.tsx:33-44 | Enter without Shift saves, Shift+Enter does nothing, and Escape resets both drafts and leaves both edit modes. |
| CardModal.Discard | src/components/board/CardModal.tsx:38-43 | After Escape both drafts equal the card and neither field is edited. |
| CardModal.DiscardDescription | src/components/board/CardModal.tsx:102-123 | Escape or Cancel in the description box resets only the description draft. |
| CardModal.Handle | src/components/board/CardModal.tsx:57-166 | The card is deleted by an event if and only if it is the confirmation while the prompt is open. Only the save events send updates. |
| CardModal.DeleteNeedsPrompt | src/components/board/CardModal.tsx:144-166 | Any run that deletes the card contains a request for the prompt before the confirmation. |
| CardModal.FirstConfirm | src/components/board/CardModal.tsx:147 | A deleting run contains a confirmation. |
| CardModal.EscapeThenSaveSendsNothing | src/components/board/CardModal.tsx:38-43 | A save right after Escape sends nothing. |
| CardModal.TitleSaveSettles | src/components/board/CardModal.tsx:19-24 | Once the page applies a title update, saving the same draft again sends nothing new. |
| CardModal.DescriptionSaveSettles | src/components/board/CardModal.tsx:26-31 | Once the page applies a description update, saving again sends nothing. |
| ListView.Open | src/components/board/List.tsx:25-27 | The header starts with the list's title and neither editing nor the menu open. |
| ListView.TitleSave | src/components/board/List.tsx:33-40 | A rename with the trimmed title is sent if and only if it is non-empty and the draft differs from the list's title. Otherwise the draft resets. Editing ends. |
| ListView.TitleKey | src/components/board/List.tsx:42-50 | Enter saves. Escape reverts the draft and stops editing without renaming. |
| ListView.UnsavedDraftIsReset | src/components/board/List.tsx:36-49 | After a save that did not rename, or after Escape, a further save sends nothing. |
| ListView.RenameSettles | src/components/board/List.tsx:33-35 | Once the page stores the rename, the list shows the trimmed draft, and saving again sends nothing new. |
| ListView.Menu | src/components/board/List.tsx:79-118 | Delete fires if and only if chosen from the open menu. Rename starts editing only from the open menu, and every entry closes it. |
| ListView.DeleteNeedsOpenMenu | src/components/board/List.tsx:88-118 | From a closed menu a single action never deletes, and two actions delete only as toggle then Delete. |
| ListView.SortableItems | src/components/board/List.tsx:127-128 | The sortable items are the card ids in the order given. |
| ListView.OverIdsDistinguishable | src/components/board/List.tsx:29-31 | On a valid board a column's drop id is no card's id, and the items of a column are distinct. |
| AddForm.ActualIsOpen | src/components/board/AddForm.tsx:24 | A supplied `isOpen` decides; otherwise the form's own flag does. |
| AddForm.Submit | src/components/board/AddForm.tsx:32-41 | Blank text changes nothing. Otherwise the trimmed, non-empty text is submitted, the field clears, and the form closes only when uncontrolled. |
| AddForm.Cancel | src/components/board/AddForm.tsx:43-49 | Cancel clears the field, closes only an uncontrolled form, and calls `onCancel`. |
| AddForm.KeyDown | src/components/board/AddForm.tsx:51-55 | Escape is exactly Cancel; other keys change nothing. |
| AddForm.OpenButton | src/components/board/AddForm.tsx:57-60 | The button opens the form's own flag and keeps the text. |
| AddForm.OwnStateCycle | src/components/board/AddForm.tsx:24-60 | An uncontrolled form closes after submit, cancel or Escape and reopens from its button. A controlled one ignores the button. |
| AddForm.SubmitOnce | src/components/board/AddForm.tsx:32-41 | Submitting twice submits at most once. |
| AddForm.SubmitAddsCard | src/pages/Board.tsx:154-160 | A submitted card title is inserted trimmed at the end of its list. |
| AddForm.SubmitAddsList | src/pages/Board.tsx:115-121 | A submitted list title is inserted trimmed after the last list. |
| Dashboard.FetchBoards | src/pages/Dashboard.tsx:28-43 | Without a user nothing happens. Otherwise loading ends, and on success the returned rows (none for an empty reply) replace the list. On error the list is kept. |
| Dashboard.CreateBoard | src/pages/Dashboard.tsx:45-64 | A blank title or no user is ignored. Otherwise the trimmed title is inserted for the user and the returned board is prepended. The dialog closes and the field clears; on error the boards and text stay. Submitting ends. |
| Dashboard.CreateKeepsNewestFirst | src/pages/Dashboard.tsx:35-59 | Prepending a board no older than the rest keeps the newest-first fetch order, with the new board first. |
| Dashboard.Retitle | src/pages/Dashboard.tsx:79-81 | Only boards with the selected id change, and only their title. |
| Dashboard.RenameBoard | src/pages/Dashboard.tsx:66-87 | A blank title or no selection is ignored. On success only the selected board's title changes, to the trimmed text, and the dialog, field and selection clear. |
| Dashboard.RenameKeepsOrder | src/pages/Dashboard.tsx:79-81 | A rename keeps ids, owners, creation times and the newest-first order, and repeating it changes nothing. |
| Dashboard.OpenRename | src/pages/Dashboard.tsx:108-112 | The rename dialog opens on the chosen board with that board's title in the field. The boards and the other dialogs are untouched. |
| Dashboard.RenameUnedited | src/pages/Dashboard.tsx:66-112 | Submitting the rename dialog as opened writes the board's own trimmed title to that board. It writes nothing for a blank title. On success it leaves the list unchanged when the title was already trimmed and the board was the only one with its id. |
| Dashboard.DeleteBoard | src/pages/Dashboard.tsx:89-106 | Without a selection nothing happens. On success exactly the boards with that id leave and the rest stay in order. |
| Dashboard.DeleteExact | src/pages/Dashboard.tsx:101 | After a delete no board has the id, every other board stays as often as before, and the list stays newest first. |
| Dashboard.FilterKeepsOrder | src/pages/Dashboard.tsx:101 | Filtering a newest-first list keeps it newest first. |
| Dashboard.OpenDelete | src/pages/Dashboard.tsx:114-117 | The delete dialog opens on the chosen board. The boards, the field and the other dialogs are untouched. |
| Dashboard.CloseForgets | src/pages/Dashboard.tsx:173-244 | Closing a dialog never touches the boards. Closing create or rename clears the field, and closing rename or delete drops the selection, so no handler has a leftover board or text. |
| Dashboard.Close | src/pages/Dashboard.tsx:173-244 | Closing a dialog closes that dialog only. Closing delete keeps the field, and closing create keeps the selection. |
| Dashboard.OpenCreate | src/pages/Dashboard.tsx:130 | The create dialog opens with the field and the selection as they were, and the boards and other dialogs untouched. |

## Left out

- Store calls are not modelled as I/O. A reply becomes an input (`Reply`, `Lookup`), and a write becomes a returned request or update log. The awaits and their interleaving are not modelled: a drop's log is its order of issue.
- Per-call failures of the drag writes are not modelled, because the code ignores them.
- `Date` values are integer timestamps. `Math.random` becomes a given sequence of 8 indices below the alphabet length.
- Clipboard copying and its `setTimeout`, focus effects, document key listeners and body scrolling are left out. They are side effects with no state the model keeps.
- The rules of hooks are abstracted:
  - the `useEffect` triggers that start fetches;
  - React re-rendering, with each handler modelled against the array it is given;
  - the composition of the two queued `setCards` updaters, which apply in order.
- dnd-kit internals (collision detection, the pointer activation distance, sortable transforms) are left out. The drop target id is an input.
- The invite-use increment at src/pages/JoinBoard.tsx:115-118 is left out. It passes the result of a remote procedure call as a column value, which is a foreign call.
- Member and board fetches (`fetchMembers`, `fetchBoardData`) are replies passed in, and their loading spinners are not modelled.
- Text.Upper: only ASCII letters are upper-cased. JavaScript `toUpperCase` also maps other scripts, and this needs Unicode tables.
- Members.Initials: the first character is a whole code point. `charAt(0)` returns half of a surrogate pair for characters above the Basic Multilingual Plane.
- Text.IntToString prints integers in plain decimal. JavaScript switches to exponent notation from 1e21, far beyond any use count.
- Dashboard.FetchBoards: without a user it returns at once, so the loading flag stays as it was (true on first render). The dashboard then shows its spinner forever. This is stated, not corrected.
- The removal spinner (`removingId` while a delete is pending) is not modelled. Only its final cleared state is.
- Saves triggered by an input losing focus when the dialog unmounts are not modelled.
- Form submission by the browser on Enter is not modelled. In the card form's textarea, Enter types a newline. In the list form's single-line input, Enter submits, which is `AddForm.Submit`.
- Purely presentational files are not part of this model: the header, the board tile, the text input, the modal frame and the card tile.
- Drag.Plan: its contract states only that the reorder indices are in range. Its decisions are stated case by case in `DropCases`.

## Findings

| source | as written | input that shows it | evidently intended | confidence | as-written member | corrected member |
|---|---|---|---|---|---|---|
| src/pages/Board.tsx:223-286 | The hover rewrites the dragged card's `list_id` in local state. The drop then reads the re-rendered array, finds the card already in the target list, and takes the same-list branch. That branch writes positions only, so the new list is never stored and the source list is never renumbered. | Cards a (list s, position 0), b (list s, position 1), x (list t, position 0). Hover a over x, then drop a on x. | The store holds the card in the list the board shows it in, as it does when no hover precedes the drop. | medium; not executed | Hover.HoverThenDropLosesMove | Hover.DragEndFromStart |
| src/components/board/InviteModal.tsx:62-65 | `setGenerating(true)` runs before the signed-out early return, which never lowers the flag again. | The dialog loads with no invite; a signed-out user presses "Generate Invite Link". | The busy flag is lowered on every path. | high; not executed | Invite.GenerateNewInvite | Invite.GenerateNewInviteFixed |
| src/components/board/CardModal.tsx:28 | An emptied description is sent as `description \|\| undefined`. `JSON.stringify` drops the key, so the store keeps the old text while the board page clears it with the spread. | A card with description "notes"; the draft is emptied and saved. | The description is cleared in the store too, by sending `null`, which the page's update type allows (src/pages/Board.tsx:171). | high; not executed | CardModal.ClearedDescriptionComesBack | CardModal.DescriptionSaveFixed |
