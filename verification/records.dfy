/** Row types of the board store (src/types/database.ts) and the shape of a
    remote call's reply. Ids and timestamps that are only carried around stay
    strings; timestamps that are compared become integers. */
module Records {

  datatype Option<+T> = None | Some(value: T)

  /** Primary keys are opaque strings (UUIDs in the store). */
  type Id = string

  /** `createdAt` orders the dashboard, so it is a timestamp. */
  datatype Board = Board(id: Id, userId: Id, title: string, createdAt: int)

  datatype List = List(id: Id, boardId: Id, title: string, position: int, createdAt: string)

  /** `description` is nullable in the store; a cleared description is `None`. */
  datatype Card = Card(
    id: Id,
    listId: Id,
    title: string,
    description: Option<string>,
    position: int,
    createdAt: string)

  /** A board membership row together with the optional e-mail shown in the avatar. */
  datatype Member = Member(id: Id, boardId: Id, userId: Id, role: string, email: Option<string>)

  /** An invite row; `expiresAt` is a timestamp, `maxUses` is nullable. */
  datatype Invite = Invite(
    id: Id,
    boardId: Id,
    inviteCode: string,
    createdBy: Id,
    uses: int,
    maxUses: Option<int>,
    expiresAt: Option<int>)

  /** What a remote `insert/select ... .single()` call hands back: an error flag
      and possibly a row. Both fields are inputs of the model, never computed. */
  datatype Reply<+T> = Reply(failed: bool, data: Option<T>)

  /** Two cards agree on everything a drag may not touch: only `listId` and
      `position` can differ. */
  predicate SameContent(a: Card, b: Card) {
    a.id == b.id && a.title == b.title && a.description == b.description && a.createdAt == b.createdAt
  }
}
