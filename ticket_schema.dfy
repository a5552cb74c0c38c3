/**
 * The ticket document (server/models/Ticket.ts) and the invariants the
 * collection of tickets keeps: unique codes, creation order, and an assignee
 * only on used tickets.
 */
module TicketSchema {
  import opened Wrappers
  import opened Codes

  datatype Pool = HSV | OSV | Common
  datatype Status = Available | Used

  /** A reference to a user document (`assignedTo: ObjectId`, ref "User"). */
  type UserRef = string

  /** One ticket; `createdAt` is the timestamp Mongoose adds on insert. */
  datatype Ticket = Ticket(code: string, pool: Pool, status: Status, assignedTo: Option<UserRef>, createdAt: nat)

  /** A ticket as an insert creates it: `status` and `assignedTo` take their schema defaults. */
  function NewTicket(code: string, pool: Pool, createdAt: nat): Ticket {
    Ticket(code, pool, Available, None, createdAt)
  }

  /** The codes present in the collection. */
  function CodeSet(ts: seq<Ticket>): set<string> {
    set i | 0 <= i < |ts| :: ts[i].code
  }

  /** The codes of the tickets currently available. */
  function AvailableCodeSet(ts: seq<Ticket>): set<string> {
    set i | 0 <= i < |ts| && ts[i].status == Available :: ts[i].code
  }

  /** `code` is `unique` in the schema. */
  predicate UniqueCodes(ts: seq<Ticket>) {
    forall i, j :: 0 <= i < j < |ts| ==> ts[i].code != ts[j].code
  }

  /** The collection is kept in insertion order, so `createdAt` strictly increases along it. */
  predicate CreationOrdered(ts: seq<Ticket>) {
    forall i, j :: 0 <= i < j < |ts| ==> ts[i].createdAt < ts[j].createdAt
  }

  /** Every stored code passed the import filter, and an available ticket has no assignee. */
  predicate WellFormed(t: Ticket) {
    ValidCode(t.code) && (t.status == Available ==> t.assignedTo == None)
  }

  /** The collection invariant; `clock` is the next timestamp to hand out. */
  predicate ValidCollection(ts: seq<Ticket>, clock: nat) {
    && UniqueCodes(ts)
    && CreationOrdered(ts)
    && (forall i :: 0 <= i < |ts| ==> WellFormed(ts[i]) && ts[i].createdAt < clock)
  }

  lemma CodeSetAppend(ts: seq<Ticket>, t: Ticket)
    ensures CodeSet(ts + [t]) == CodeSet(ts) + {t.code}
  {
    var s := ts + [t];
    assert s[|ts|].code == t.code;
    forall c | c in CodeSet(ts) ensures c in CodeSet(s) {
      var i :| 0 <= i < |ts| && ts[i].code == c;
      assert s[i] == ts[i];
    }
  }
}
