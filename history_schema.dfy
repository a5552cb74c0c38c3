/**
 * The history document (server/models/History.ts): one recorded action on a
 * code, with its kind, the optional context fields and a date.
 */
module HistorySchema {
  import opened Wrappers

  /** `type`: enum ["generated", "submitted", "cleared"], required. */
  datatype HistoryType = Generated | Submitted | Cleared

  /** The enum check: only the three exact lower-case names are kinds. */
  function HistoryTypeOf(raw: string): (t: Option<HistoryType>)
    ensures t == Some(Generated) <==> raw == "generated"
    ensures t == Some(Submitted) <==> raw == "submitted"
    ensures t == Some(Cleared) <==> raw == "cleared"
  {
    if raw == "generated" then Some(Generated)
    else if raw == "submitted" then Some(Submitted)
    else if raw == "cleared" then Some(Cleared)
    else None
  }

  /** The name a kind is stored and queried under. */
  function HistoryTypeName(t: HistoryType): (name: string)
    ensures HistoryTypeOf(name) == Some(t)
  {
    match t
    case Generated => "generated"
    case Submitted => "submitted"
    case Cleared => "cleared"
  }

  /** Every string the enum accepts is the name of the kind it yields. */
  lemma HistoryTypeRoundTrip(raw: string)
    ensures HistoryTypeOf(raw).Some? ==> HistoryTypeName(HistoryTypeOf(raw).value) == raw
  {
  }

  /**
   * One stored entry; `date` is a timestamp in milliseconds, `id` the
   * document identifier in insertion order.
   */
  datatype HistoryEntry = HistoryEntry(
    id: nat,
    kind: HistoryType,
    userId: Option<string>,
    teamMember: Option<string>,
    code: string,
    country: Option<string>,
    comments: Option<string>,
    clearanceId: Option<string>,
    date: int)

  /** `code` is required (non-empty), and an optional field, when present, is never empty. */
  predicate WellFormedEntry(e: HistoryEntry) {
    && e.code != ""
    && e.userId != Some("") && e.teamMember != Some("") && e.country != Some("")
    && e.comments != Some("") && e.clearanceId != Some("")
  }
}
