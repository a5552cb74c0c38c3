/**
 * The database-backed Ek-code pool (server/routes/tickets-db.ts): import,
 * delete, consume, append, next and the availability listing, over the ticket
 * collection held in insertion order. Each store call (`bulkWrite`,
 * `deleteMany`, `findOneAndUpdate`, `countDocuments`) is one sequential step.
 */
module TicketsDb {
  import opened Wrappers
  import opened Text
  import opened Codes
  import opened TicketSchema

  // ----- Request and response shapes -----

  /** One element of the import body's `items`; an absent or null code reads as "". */
  datatype ImportItem = ImportItem(code: string, pool: Option<string>)

  /** One entry of `toInsert`: a normalised, valid code and its pool. */
  datatype Pending = Pending(code: string, pool: Pool)

  datatype ApiError = NoItems | NoValidItems | NoCodes | InvalidCode | NoTicketsAvailable

  datatype Reply<T> = Ok(body: T) | Fail(error: ApiError)

  datatype Reason = NotInAvailable | UnknownCode

  datatype ConsumeReply = ConsumeReply(removed: bool, reason: Option<Reason>, availableCount: nat)
  datatype AppendReply = AppendReply(added: bool, reason: Option<Reason>, availableCount: nat)
  datatype NextReply = NextReply(code: string, availableCount: nat)

  datatype PoolCounts = PoolCounts(hsv: nat, osv: nat, common: nat)
  datatype PoolCodes = PoolCodes(hsv: seq<string>, osv: seq<string>, common: seq<string>)
  datatype Listing = Listing(available: seq<string>, counts: PoolCounts, byPool: PoolCodes)

  /** The HTTP status of each error reply. */
  function HttpStatus(e: ApiError): (status: nat)
    ensures status == 404 <==> e == NoTicketsAvailable
    ensures status != 404 ==> status == 400
  {
    if e == NoTicketsAvailable then 404 else 400
  }

  // ----- Import -----

  /** The pool an import item lands in: only the exact strings "OSV" and "Common" are recognised. */
  function ImportPool(raw: Option<string>): (p: Pool)
    ensures p == OSV <==> raw == Some("OSV")
    ensures p == Common <==> raw == Some("Common")
  {
    if raw == Some("OSV") then OSV else if raw == Some("Common") then Common else HSV
  }

  /** One item normalised: its upper-cased code with its pool, or nothing when that is not a code. */
  function Normalize(item: ImportItem): (p: Option<Pending>)
    ensures p.Some? <==> ValidCode(ToUpper(item.code))
    ensures p.Some? ==> p.value == Pending(ToUpper(item.code), ImportPool(item.pool))
  {
    var code := ToUpper(item.code);
    if ValidCode(code) then Some(Pending(code, ImportPool(item.pool))) else None
  }

  /** The items that survive normalisation, in input order: upper-cased codes matching CODE_RE. */
  function ValidItems(items: seq<ImportItem>): (r: seq<Pending>)
    ensures |r| <= |items|
    ensures forall k :: 0 <= k < |r| ==> ValidCode(r[k].code)
  {
    if items == [] then []
    else
      (match Normalize(items[0]) case Some(p) => [p] case None => []) + ValidItems(items[1..])
  }

  /** An entry is in `toInsert` exactly when some item normalises to it. */
  lemma {:induction false} ValidItemsMembers(items: seq<ImportItem>, p: Pending)
    ensures p in ValidItems(items) <==>
      ValidCode(p.code) && exists k :: 0 <= k < |items| && p == Pending(ToUpper(items[k].code), ImportPool(items[k].pool))
  {
    if items != [] {
      ValidItemsMembers(items[1..], p);
      if exists k :: 0 <= k < |items| && p == Pending(ToUpper(items[k].code), ImportPool(items[k].pool)) {
        var k :| 0 <= k < |items| && p == Pending(ToUpper(items[k].code), ImportPool(items[k].pool));
        if k > 0 {
          assert items[1..][k - 1] == items[k];
        }
      }
      if exists k :: 0 <= k < |items[1..]| && p == Pending(ToUpper(items[1..][k].code), ImportPool(items[1..][k].pool)) {
        var k :| 0 <= k < |items[1..]| && p == Pending(ToUpper(items[1..][k].code), ImportPool(items[1..][k].pool));
        assert items[k + 1] == items[1..][k];
      }
    }
  }

  lemma ValidItemsStep(items: seq<ImportItem>, i: nat)
    requires i < |items|
    ensures ValidItems(items[i..]) ==
      (match Normalize(items[i]) case Some(p) => [p] case None => []) + ValidItems(items[i + 1..])
  {
    assert items[i..][1..] == items[i + 1..];
  }

  /** The loop that builds `toInsert`. */
  method CollectValid(items: seq<ImportItem>) returns (toInsert: seq<Pending>)
    ensures toInsert == ValidItems(items)
  {
    toInsert := [];
    var i := 0;
    while i < |items|
      invariant 0 <= i <= |items|
      invariant toInsert + ValidItems(items[i..]) == ValidItems(items)
    {
      ValidItemsStep(items, i);
      var p := Normalize(items[i]);
      if p.Some? {
        assert (toInsert + [p.value]) + ValidItems(items[i + 1..]) == toInsert + ([p.value] + ValidItems(items[i + 1..]));
        toInsert := toInsert + [p.value];
      } else {
        assert [] + ValidItems(items[i + 1..]) == ValidItems(items[i + 1..]);
      }
      i := i + 1;
    }
    assert items[i..] == [];
  }

  /** One `updateOne` with `$setOnInsert` and `upsert: true`: insert the entry unless its code exists. */
  function UpsertOne(ts: seq<Ticket>, clock: nat, p: Pending): (seq<Ticket>, nat) {
    if p.code in CodeSet(ts) then (ts, clock) else (ts + [NewTicket(p.code, p.pool, clock)], clock + 1)
  }

  /** The `bulkWrite` of all upserts, applied in order. */
  function UpsertAll(ts: seq<Ticket>, clock: nat, pending: seq<Pending>): (r: (seq<Ticket>, nat))
    ensures |ts| <= |r.0| && r.0[..|ts|] == ts
    ensures r.1 == clock + (|r.0| - |ts|)
    decreases |pending|
  {
    if pending == [] then (ts, clock)
    else
      var (ts1, c1) := UpsertOne(ts, clock, pending[0]);
      var r := UpsertAll(ts1, c1, pending[1..]);
      assert r.0[..|ts|] == r.0[..|ts1|][..|ts|];
      r
  }

  /** The codes an import adds: requested, and not yet in the collection. */
  function NewCodes(ts: seq<Ticket>, pending: seq<Pending>): set<string> {
    (set q | q in pending :: q.code) - CodeSet(ts)
  }

  /**
   * Import is insert-if-absent: existing tickets keep pool, status and assignee
   * (they are the untouched prefix); every appended ticket is a new, available,
   * unassigned ticket for one of the requested entries; every requested code is
   * present afterwards; and the collection invariant is kept.
   */
  lemma {:induction false} UpsertAllSpec(ts: seq<Ticket>, clock: nat, pending: seq<Pending>)
    requires ValidCollection(ts, clock)
    requires forall k :: 0 <= k < |pending| ==> ValidCode(pending[k].code)
    ensures var r := UpsertAll(ts, clock, pending);
      && ValidCollection(r.0, r.1)
      && (forall i :: |ts| <= i < |r.0| ==>
            r.0[i].status == Available && r.0[i].assignedTo == None && r.0[i].code !in CodeSet(ts)
            && Pending(r.0[i].code, r.0[i].pool) in pending)
      && (forall k :: 0 <= k < |pending| ==> pending[k].code in CodeSet(r.0))
    decreases |pending|
  {
    if pending != [] {
      var (ts1, c1) := UpsertOne(ts, clock, pending[0]);
      var p := pending[0];
      if p.code !in CodeSet(ts) {
        CodeSetAppend(ts, NewTicket(p.code, p.pool, clock));
        assert CodeSet(ts1) == CodeSet(ts) + {p.code};
      } else {
        assert ts1 == ts;
      }
      assert p.code in CodeSet(ts1);
      UpsertAllSpec(ts1, c1, pending[1..]);
      var r := UpsertAll(ts1, c1, pending[1..]);
      assert r == UpsertAll(ts, clock, pending);
      assert r.0[..|ts1|] == ts1;
      forall i | |ts| <= i < |r.0|
        ensures r.0[i].status == Available && r.0[i].assignedTo == None && r.0[i].code !in CodeSet(ts)
        ensures Pending(r.0[i].code, r.0[i].pool) in pending
      {
        if i < |ts1| {
          assert r.0[i] == ts1[i];
        } else {
          assert r.0[i].code !in CodeSet(ts1);
        }
      }
      forall k | 0 <= k < |pending| ensures pending[k].code in CodeSet(r.0) {
        if k == 0 {
          var j :| 0 <= j < |ts1| && ts1[j].code == p.code;
          assert r.0[j] == ts1[j];
        } else {
          assert pending[k] == pending[1..][k - 1];
        }
      }
    }
  }

  /** `inserted` (the upsert count) is the number of distinct requested codes not already stored. */
  lemma {:induction false} UpsertAllCount(ts: seq<Ticket>, clock: nat, pending: seq<Pending>)
    ensures |UpsertAll(ts, clock, pending).0| - |ts| == |NewCodes(ts, pending)|
    decreases |pending|
  {
    if pending == [] {
      assert NewCodes(ts, pending) == {};
    } else {
      var p := pending[0];
      var tail := pending[1..];
      var next := UpsertOne(ts, clock, p);
      UpsertAllCount(next.0, next.1, tail);
      assert UpsertAll(ts, clock, pending) == UpsertAll(next.0, next.1, tail);
      NewCodesStep(ts, clock, pending);
    }
  }

  /** One upsert adds one ticket exactly when it removes one code from the codes still to add. */
  lemma NewCodesStep(ts: seq<Ticket>, clock: nat, pending: seq<Pending>)
    requires pending != []
    ensures var next := UpsertOne(ts, clock, pending[0]);
      |next.0| - |ts| + |NewCodes(next.0, pending[1..])| == |NewCodes(ts, pending)|
  {
    var p := pending[0];
    var tail := pending[1..];
    PendingCodesCons(pending);
    if p.code in CodeSet(ts) {
      assert NewCodes(ts, tail) == NewCodes(ts, pending);
    } else {
      var t := NewTicket(p.code, p.pool, clock);
      CodeSetAppend(ts, t);
      var before := NewCodes(ts, pending);
      var after := NewCodes(ts + [t], tail);
      assert after == before - {p.code};
      assert p.code in before;
    }
  }

  lemma PendingCodesCons(pending: seq<Pending>)
    requires pending != []
    ensures (set q | q in pending :: q.code) == {pending[0].code} + (set q | q in pending[1..] :: q.code)
  {
    var all := set q | q in pending :: q.code;
    var rest := set q | q in pending[1..] :: q.code;
    forall c | c in all ensures c in {pending[0].code} + rest {
      var q :| q in pending && q.code == c;
      var k :| 0 <= k < |pending| && pending[k] == q;
      if k > 0 { assert pending[1..][k - 1] == q; }
    }
    forall c | c in rest ensures c in all {
      var q :| q in pending[1..] && q.code == c;
      assert q in pending;
    }
    assert pending[0] in pending;
  }

  /** Entries whose codes are all stored change nothing. */
  lemma {:induction false} UpsertAllKnown(ts: seq<Ticket>, clock: nat, pending: seq<Pending>)
    requires forall k :: 0 <= k < |pending| ==> pending[k].code in CodeSet(ts)
    ensures UpsertAll(ts, clock, pending) == (ts, clock)
    decreases |pending|
  {
    if pending != [] {
      assert pending[0].code in CodeSet(ts);
      forall k | 0 <= k < |pending[1..]| ensures pending[1..][k].code in CodeSet(ts) {
        assert pending[1..][k] == pending[k + 1];
      }
      UpsertAllKnown(ts, clock, pending[1..]);
    }
  }

  /** Importing the same entries again inserts nothing and changes nothing. */
  lemma ReimportInsertsNothing(ts: seq<Ticket>, clock: nat, pending: seq<Pending>)
    requires ValidCollection(ts, clock)
    requires forall k :: 0 <= k < |pending| ==> ValidCode(pending[k].code)
    ensures var r := UpsertAll(ts, clock, pending);
      UpsertAll(r.0, r.1, pending) == r
  {
    var r := UpsertAll(ts, clock, pending);
    UpsertAllSpec(ts, clock, pending);
    UpsertAllKnown(r.0, r.1, pending);
  }

  // ----- Delete -----

  /** `codes.map(upper).filter(CODE_RE.test)`. */
  function DeleteList(codes: seq<string>): (list: seq<string>)
    ensures |list| <= |codes|
    ensures forall k :: 0 <= k < |list| ==> ValidCode(list[k])
  {
    if codes == [] then []
    else
      var c := ToUpper(codes[0]);
      (if ValidCode(c) then [c] else []) + DeleteList(codes[1..])
  }

  /** The `deleteMany` filter `{ code: { $in: list }, status: "available" }`. */
  predicate Deletable(t: Ticket, list: seq<string>) {
    t.code in list && t.status == Available
  }

  /** The collection after `deleteMany`: the other tickets, in their order. */
  function DeleteAvailable(ts: seq<Ticket>, list: seq<string>): (r: seq<Ticket>)
    ensures |r| <= |ts|
    ensures forall t :: t in r <==> t in ts && !Deletable(t, list)
  {
    if ts == [] then []
    else (if Deletable(ts[0], list) then [] else [ts[0]]) + DeleteAvailable(ts[1..], list)
  }

  /** The codes a delete removes: listed, and available. */
  function DeletedCodes(ts: seq<Ticket>, list: seq<string>): set<string> {
    set i | 0 <= i < |ts| && Deletable(ts[i], list) :: ts[i].code
  }

  lemma DeletedCodesCons(ts: seq<Ticket>, list: seq<string>)
    requires ts != []
    ensures DeletedCodes(ts, list) == (if Deletable(ts[0], list) then {ts[0].code} else {}) + DeletedCodes(ts[1..], list)
  {
    var tail := ts[1..];
    forall i | 0 <= i < |ts| && Deletable(ts[i], list)
      ensures ts[i].code in (if Deletable(ts[0], list) then {ts[0].code} else {}) + DeletedCodes(tail, list)
    {
      if i > 0 { assert ts[i] == tail[i - 1]; }
    }
    forall i | 0 <= i < |tail| && Deletable(tail[i], list) ensures tail[i].code in DeletedCodes(ts, list) {
      assert tail[i] == ts[i + 1];
    }
  }

  /** `deleted` is the number of distinct codes removed; used tickets stay. */
  lemma {:induction false} DeleteCount(ts: seq<Ticket>, list: seq<string>)
    requires UniqueCodes(ts)
    ensures |ts| - |DeleteAvailable(ts, list)| == |DeletedCodes(ts, list)|
  {
    if ts != [] {
      var tail := ts[1..];
      DeleteCount(tail, list);
      DeletedCodesCons(ts, list);
      assert ts[0].code !in DeletedCodes(tail, list) by {
        forall i | 0 <= i < |tail| ensures tail[i].code != ts[0].code {
          assert tail[i] == ts[i + 1];
        }
      }
    }
  }

  /** The removed codes are exactly the listed codes that were available. */
  lemma DeletedCodesSpec(ts: seq<Ticket>, list: seq<string>)
    ensures DeletedCodes(ts, list) == AvailableCodeSet(ts) * (set k | 0 <= k < |list| :: list[k])
  {
    forall c | c in AvailableCodeSet(ts) * (set k | 0 <= k < |list| :: list[k]) ensures c in DeletedCodes(ts, list) {
      var i :| 0 <= i < |ts| && ts[i].status == Available && ts[i].code == c;
      assert Deletable(ts[i], list);
    }
  }

  lemma {:induction false} DeleteKeepsCollection(ts: seq<Ticket>, clock: nat, list: seq<string>)
    requires ValidCollection(ts, clock)
    ensures ValidCollection(DeleteAvailable(ts, list), clock)
  {
    if ts != [] {
      ValidCollectionTail(ts, clock);
      DeleteKeepsCollection(ts[1..], clock, list);
      var rest := DeleteAvailable(ts[1..], list);
      if !Deletable(ts[0], list) {
        HeadBeforeRest(ts, list);
        assert WellFormed(ts[0]) && ts[0].createdAt < clock;
        ValidCollectionCons(ts[0], rest, clock);
      }
    }
  }

  /** The first ticket differs in code from, and precedes, every ticket the delete keeps after it. */
  lemma HeadBeforeRest(ts: seq<Ticket>, list: seq<string>)
    requires ts != [] && UniqueCodes(ts) && CreationOrdered(ts)
    ensures forall j :: 0 <= j < |DeleteAvailable(ts[1..], list)| ==>
      ts[0].code != DeleteAvailable(ts[1..], list)[j].code && ts[0].createdAt < DeleteAvailable(ts[1..], list)[j].createdAt
  {
    var rest := DeleteAvailable(ts[1..], list);
    forall j | 0 <= j < |rest| ensures ts[0].code != rest[j].code && ts[0].createdAt < rest[j].createdAt {
      assert rest[j] in ts[1..];
      var k :| 0 <= k < |ts[1..]| && ts[1..][k] == rest[j];
      assert ts[k + 1] == rest[j];
    }
  }

  lemma ValidCollectionTail(ts: seq<Ticket>, clock: nat)
    requires ValidCollection(ts, clock) && ts != []
    ensures ValidCollection(ts[1..], clock)
  {
    var tail := ts[1..];
    assert forall i :: 0 <= i < |tail| ==> tail[i] == ts[i + 1];
  }

  lemma ValidCollectionCons(t: Ticket, rest: seq<Ticket>, clock: nat)
    requires ValidCollection(rest, clock) && WellFormed(t) && t.createdAt < clock
    requires forall j :: 0 <= j < |rest| ==> t.code != rest[j].code && t.createdAt < rest[j].createdAt
    ensures ValidCollection([t] + rest, clock)
  {
    var s := [t] + rest;
    assert forall i :: 0 < i < |s| ==> s[i] == rest[i - 1];
  }


  // ----- Consume, append, next: conditional single-document updates -----

  /** A `findOneAndUpdate` filter. */
  datatype Filter = CodeIs(code: string) | AvailableCode(code: string) | AvailableInPool(pool: Pool)

  predicate Matches(f: Filter, t: Ticket) {
    match f
    case CodeIs(c) => t.code == c
    case AvailableCode(c) => t.code == c && t.status == Available
    case AvailableInPool(p) => t.status == Available && t.pool == p
  }

  /** The document `findOneAndUpdate` picks: the first match in insertion (`createdAt`) order. */
  function FirstMatch(ts: seq<Ticket>, f: Filter): (r: Option<nat>)
    ensures r.Some? ==> r.value < |ts| && Matches(f, ts[r.value])
    ensures r.Some? ==> forall j :: 0 <= j < r.value ==> !Matches(f, ts[j])
    ensures r.None? ==> forall j :: 0 <= j < |ts| ==> !Matches(f, ts[j])
  {
    if ts == [] then None
    else if Matches(f, ts[0]) then Some(0)
    else match FirstMatch(ts[1..], f)
      case None => None
      case Some(k) => Some(k + 1)
  }

  /** Sorting on `createdAt` ascending and taking the first match gives the oldest matching ticket. */
  lemma FirstMatchIsOldest(ts: seq<Ticket>, f: Filter)
    requires CreationOrdered(ts)
    requires FirstMatch(ts, f).Some?
    ensures forall j :: 0 <= j < |ts| && Matches(f, ts[j]) ==>
      ts[FirstMatch(ts, f).value].createdAt <= ts[j].createdAt
  {
  }

  /** `userId || null`. */
  function AssigneeOf(userId: string): Option<UserRef> {
    if userId == "" then None else Some(userId)
  }

  /** `$set: { status: "used", assignedTo }` on the ticket with this code, if it is available. */
  function Claim(ts: seq<Ticket>, code: string, assignee: Option<UserRef>): (r: seq<Ticket>)
    ensures |r| == |ts|
  {
    seq(|ts|, i requires 0 <= i < |ts| =>
      if ts[i].code == code && ts[i].status == Available then ts[i].(status := Used, assignedTo := assignee) else ts[i])
  }

  /** `$set: { status: "available", assignedTo: null }` on the ticket with this code. */
  function Release(ts: seq<Ticket>, code: string): (r: seq<Ticket>)
    ensures |r| == |ts|
  {
    seq(|ts|, i requires 0 <= i < |ts| =>
      if ts[i].code == code then ts[i].(status := Available, assignedTo := None) else ts[i])
  }

  /** Claiming keeps the collection invariant: codes and dates stay, and a used ticket may carry an assignee. */
  lemma ClaimKeepsCollection(ts: seq<Ticket>, clock: nat, code: string, assignee: Option<UserRef>)
    requires ValidCollection(ts, clock)
    ensures ValidCollection(Claim(ts, code, assignee), clock)
  {
    var r := Claim(ts, code, assignee);
    assert forall i :: 0 <= i < |ts| ==> r[i].code == ts[i].code && r[i].createdAt == ts[i].createdAt;
  }

  /** Claiming moves exactly the named ticket from available to used; nothing else changes. */
  lemma ClaimSpec(ts: seq<Ticket>, clock: nat, code: string, assignee: Option<UserRef>)
    requires ValidCollection(ts, clock)
    ensures ValidCollection(Claim(ts, code, assignee), clock)
    ensures AvailableCodeSet(Claim(ts, code, assignee)) == AvailableCodeSet(ts) - {code}
    ensures code !in AvailableCodeSet(ts) ==> Claim(ts, code, assignee) == ts
  {
    var r := Claim(ts, code, assignee);
    ClaimKeepsCollection(ts, clock, code, assignee);
    forall c | c in AvailableCodeSet(ts) - {code} ensures c in AvailableCodeSet(r) {
      var i :| 0 <= i < |ts| && ts[i].status == Available && ts[i].code == c;
      assert r[i] == ts[i];
    }
    if code !in AvailableCodeSet(ts) {
      forall i | 0 <= i < |ts| ensures r[i] == ts[i] {
        assert ts[i].status == Available ==> ts[i].code in AvailableCodeSet(ts);
      }
    }
  }

  /** Releasing makes the named ticket available and unassigned whatever its status; nothing else changes. */
  lemma ReleaseSpec(ts: seq<Ticket>, code: string)
    ensures CodeSet(Release(ts, code)) == CodeSet(ts)
    ensures AvailableCodeSet(Release(ts, code)) ==
      AvailableCodeSet(ts) + (if code in CodeSet(ts) then {code} else {})
    ensures code !in CodeSet(ts) ==> Release(ts, code) == ts
  {
    var r := Release(ts, code);
    forall c | c in CodeSet(ts) ensures c in CodeSet(r) {
      var i :| 0 <= i < |ts| && ts[i].code == c;
      assert r[i].code == c;
    }
    forall c | c in AvailableCodeSet(ts) ensures c in AvailableCodeSet(r) {
      var i :| 0 <= i < |ts| && ts[i].status == Available && ts[i].code == c;
      assert r[i].status == Available && r[i].code == c;
    }
    if code in CodeSet(ts) {
      var i :| 0 <= i < |ts| && ts[i].code == code;
      assert r[i].status == Available && r[i].code == code;
    } else {
      forall i | 0 <= i < |ts| ensures r[i] == ts[i] {
        assert ts[i].code in CodeSet(ts);
      }
    }
  }

  lemma ReleaseKeepsCollection(ts: seq<Ticket>, clock: nat, code: string)
    requires ValidCollection(ts, clock)
    ensures ValidCollection(Release(ts, code), clock)
  {
  }

  /** Consume followed by append restores the collection exactly: status available, no assignee. */
  lemma ClaimThenRelease(ts: seq<Ticket>, clock: nat, code: string, assignee: Option<UserRef>)
    requires ValidCollection(ts, clock)
    requires code in AvailableCodeSet(ts)
    ensures Release(Claim(ts, code, assignee), code) == ts
  {
    var r := Release(Claim(ts, code, assignee), code);
    forall i | 0 <= i < |ts| ensures r[i] == ts[i] {
      if ts[i].code == code {
        var j :| 0 <= j < |ts| && ts[j].status == Available && ts[j].code == code;
        assert i == j;
        assert WellFormed(ts[i]);
      }
    }
  }

  /** Updating the first match of an available-code filter is the same as `Claim` on a unique collection. */
  lemma {:induction false} ClaimAtFirstMatch(ts: seq<Ticket>, code: string, assignee: Option<UserRef>, i: nat)
    requires UniqueCodes(ts)
    requires i < |ts| && ts[i].code == code && ts[i].status == Available
    ensures ts[i := ts[i].(status := Used, assignedTo := assignee)] == Claim(ts, code, assignee)
  {
  }

  lemma {:induction false} ReleaseAtFirstMatch(ts: seq<Ticket>, code: string, i: nat)
    requires UniqueCodes(ts)
    requires i < |ts| && ts[i].code == code
    ensures ts[i := ts[i].(status := Available, assignedTo := None)] == Release(ts, code)
  {
  }

  /** `["Common", userType === "OSV" ? "OSV" : "HSV"]`. */
  function PreferredPools(userType: Option<string>): (prefs: seq<Pool>)
    ensures |prefs| == 2 && prefs[0] == Common
    ensures prefs[1] == OSV <==> userType == Some("OSV")
    ensures prefs[1] != Common
  {
    [Common, if userType == Some("OSV") then OSV else HSV]
  }

  /** The ticket `nextTicketDb` hands out: the oldest available one of the first non-empty preferred pool. */
  function NextIndex(ts: seq<Ticket>, prefs: seq<Pool>): (r: Option<nat>)
    ensures r.Some? ==> r.value < |ts| && ts[r.value].status == Available && ts[r.value].pool in prefs
  {
    if prefs == [] then None
    else match FirstMatch(ts, AvailableInPool(prefs[0]))
      case Some(i) => Some(i)
      case None => NextIndex(ts, prefs[1..])
  }

  /** The pools that have an available ticket. */
  predicate HasAvailableIn(ts: seq<Ticket>, p: Pool) {
    exists i :: 0 <= i < |ts| && ts[i].status == Available && ts[i].pool == p
  }

  /**
   * Next fails exactly when every preferred pool is exhausted; otherwise the
   * pick comes from the first preferred pool that has an available ticket, is
   * the oldest available ticket there, and no earlier preferred pool had one.
   */
  lemma {:induction false} NextIndexSpec(ts: seq<Ticket>, prefs: seq<Pool>)
    requires CreationOrdered(ts)
    ensures NextIndex(ts, prefs).None? <==> forall k :: 0 <= k < |prefs| ==> !HasAvailableIn(ts, prefs[k])
    ensures NextIndex(ts, prefs).Some? ==>
      var i := NextIndex(ts, prefs).value;
      exists k :: 0 <= k < |prefs| && prefs[k] == ts[i].pool
        && (forall m :: 0 <= m < k ==> !HasAvailableIn(ts, prefs[m]))
        && (forall j :: 0 <= j < |ts| && ts[j].status == Available && ts[j].pool == ts[i].pool ==>
              ts[i].createdAt <= ts[j].createdAt)
  {
    if prefs != [] {
      NextIndexSpec(ts, prefs[1..]);
      var f := AvailableInPool(prefs[0]);
      match FirstMatch(ts, f)
      case Some(i) =>
        FirstMatchIsOldest(ts, f);
        assert prefs[0] == ts[i].pool;
      case None =>
        assert !HasAvailableIn(ts, prefs[0]);
        if NextIndex(ts, prefs).Some? {
          var i := NextIndex(ts, prefs).value;
          var k :| 0 <= k < |prefs[1..]| && prefs[1..][k] == ts[i].pool
            && (forall m :: 0 <= m < k ==> !HasAvailableIn(ts, prefs[1..][m]))
            && (forall j :: 0 <= j < |ts| && ts[j].status == Available && ts[j].pool == ts[i].pool ==>
                  ts[i].createdAt <= ts[j].createdAt);
          assert prefs[k + 1] == ts[i].pool;
          forall m | 0 <= m < k + 1 ensures !HasAvailableIn(ts, prefs[m]) {
            if m > 0 { assert prefs[m] == prefs[1..][m - 1]; }
          }
        } else {
          forall k | 0 <= k < |prefs| ensures !HasAvailableIn(ts, prefs[k]) {
            if k > 0 { assert prefs[k] == prefs[1..][k - 1]; }
          }
        }
    }
  }

  /**
   * Two successive `next` calls never hand out the same code: once claimed, a
   * ticket is used, so the following pick (if any) is a different ticket with
   * a different code.
   */
  lemma NextNeverRepeats(ts: seq<Ticket>, clock: nat, prefs: seq<Pool>, assignee: Option<UserRef>)
    requires ValidCollection(ts, clock)
    requires NextIndex(ts, prefs).Some?
    ensures var i := NextIndex(ts, prefs).value;
      var ts' := ts[i := ts[i].(status := Used, assignedTo := assignee)];
      NextIndex(ts', prefs).Some? ==> ts'[NextIndex(ts', prefs).value].code != ts[i].code
  {
  }

  // ----- Counting and listing -----

  /** `find({ status: "available" })`, in insertion order. */
  function AvailableOf(ts: seq<Ticket>): (r: seq<Ticket>)
    ensures |r| <= |ts|
    ensures forall t :: t in r <==> t in ts && t.status == Available
  {
    if ts == [] then []
    else (if ts[0].status == Available then [ts[0]] else []) + AvailableOf(ts[1..])
  }

  /** `list.filter((d) => d.pool === p)`. */
  function InPool(ts: seq<Ticket>, p: Pool): (r: seq<Ticket>)
    ensures |r| <= |ts|
    ensures forall t :: t in r <==> t in ts && t.pool == p
  {
    if ts == [] then []
    else (if ts[0].pool == p then [ts[0]] else []) + InPool(ts[1..], p)
  }

  /** `.map((d) => d.code)`. */
  function CodesOf(ts: seq<Ticket>): (r: seq<string>)
    ensures |r| == |ts|
    ensures forall i :: 0 <= i < |ts| ==> r[i] == ts[i].code
  {
    seq(|ts|, i requires 0 <= i < |ts| => ts[i].code)
  }

  /** `totalAvailableCountDb`: `countDocuments({ status: "available" })`. */
  function AvailableCount(ts: seq<Ticket>): nat {
    |AvailableOf(ts)|
  }

  /** The codes of the available tickets are exactly the available codes. */
  lemma AvailableCodesListed(ts: seq<Ticket>)
    ensures forall c :: c in CodesOf(AvailableOf(ts)) <==> c in AvailableCodeSet(ts)
  {
    forall c ensures c in CodesOf(AvailableOf(ts)) <==> c in AvailableCodeSet(ts) {
      if c in CodesOf(AvailableOf(ts)) {
        ListedIsAvailable(ts, c);
      }
      if c in AvailableCodeSet(ts) {
        AvailableIsListed(ts, c);
      }
    }
  }

  lemma ListedIsAvailable(ts: seq<Ticket>, c: string)
    requires c in CodesOf(AvailableOf(ts))
    ensures c in AvailableCodeSet(ts)
  {
    var list := AvailableOf(ts);
    var k :| 0 <= k < |list| && CodesOf(list)[k] == c;
    assert list[k] in ts;
    var i :| 0 <= i < |ts| && ts[i] == list[k];
  }

  lemma AvailableIsListed(ts: seq<Ticket>, c: string)
    requires c in AvailableCodeSet(ts)
    ensures c in CodesOf(AvailableOf(ts))
  {
    var list := AvailableOf(ts);
    var i :| 0 <= i < |ts| && ts[i].status == Available && ts[i].code == c;
    assert ts[i] in list;
    var k :| 0 <= k < |list| && list[k] == ts[i];
    assert CodesOf(list)[k] == c;
  }

  lemma {:induction false} PoolsPartition(ts: seq<Ticket>)
    ensures |InPool(ts, HSV)| + |InPool(ts, OSV)| + |InPool(ts, Common)| == |ts|
  {
    if ts != [] {
      PoolsPartition(ts[1..]);
    }
  }

  /** With unique codes, the available count is the number of available codes. */
  lemma AvailableCodeSetCons(ts: seq<Ticket>)
    requires ts != []
    ensures AvailableCodeSet(ts) == (if ts[0].status == Available then {ts[0].code} else {}) + AvailableCodeSet(ts[1..])
  {
    var tail := ts[1..];
    forall i | 0 <= i < |ts| && ts[i].status == Available
      ensures ts[i].code in (if ts[0].status == Available then {ts[0].code} else {}) + AvailableCodeSet(tail)
    {
      if i > 0 { assert ts[i] == tail[i - 1]; }
    }
    forall i | 0 <= i < |tail| && tail[i].status == Available ensures tail[i].code in AvailableCodeSet(ts) {
      assert tail[i] == ts[i + 1];
    }
  }

  lemma {:induction false} AvailableCountIsCodes(ts: seq<Ticket>)
    requires UniqueCodes(ts)
    ensures AvailableCount(ts) == |AvailableCodeSet(ts)|
  {
    if ts != [] {
      var tail := ts[1..];
      AvailableCountIsCodes(tail);
      AvailableCodeSetCons(ts);
      assert ts[0].code !in AvailableCodeSet(tail) by {
        forall i | 0 <= i < |tail| ensures tail[i].code != ts[0].code {
          assert tail[i] == ts[i + 1];
        }
      }
    } else {
      assert AvailableCodeSet(ts) == {};
    }
  }

  /** `codes` lists exactly the codes of the available tickets of pool `p`. */
  ghost predicate ListsPool(codes: seq<string>, ts: seq<Ticket>, p: Pool) {
    forall c :: c in codes <==> exists t :: t in ts && t.status == Available && t.pool == p && t.code == c
  }

  /** The codes of a pool's available tickets are exactly that pool's available codes. */
  lemma PoolCodesListed(ts: seq<Ticket>, p: Pool)
    ensures ListsPool(CodesOf(InPool(AvailableOf(ts), p)), ts, p)
  {
    var xs := InPool(AvailableOf(ts), p);
    forall c ensures c in CodesOf(xs) <==> exists t :: t in ts && t.status == Available && t.pool == p && t.code == c {
      CodesOfMember(xs, c);
      if exists t :: t in ts && t.status == Available && t.pool == p && t.code == c {
        var t :| t in ts && t.status == Available && t.pool == p && t.code == c;
        assert t in AvailableOf(ts);
        assert t in xs;
      }
    }
  }

  /** A code is listed exactly when some ticket of the list carries it. */
  lemma CodesOfMember(xs: seq<Ticket>, c: string)
    ensures c in CodesOf(xs) <==> exists t :: t in xs && t.code == c
  {
    if c in CodesOf(xs) {
      var i :| 0 <= i < |xs| && CodesOf(xs)[i] == c;
      assert xs[i] in xs;
    }
    if exists t :: t in xs && t.code == c {
      var t :| t in xs && t.code == c;
      var i :| 0 <= i < |xs| && xs[i] == t;
      assert CodesOf(xs)[i] == c;
    }
  }

  /**
   * `listAvailableDb`: the available codes, per-pool counts and per-pool codes.
   * The counts add up to the number of available codes and each is the number
   * of available tickets in its pool; each pool's list holds exactly that
   * pool's available codes, and the full list exactly the available ones.
   */
  function ListAvailable(ts: seq<Ticket>): (l: Listing)
    ensures l.counts.hsv + l.counts.osv + l.counts.common == |l.available|
    ensures l.counts.hsv == |l.byPool.hsv| && l.counts.osv == |l.byPool.osv| && l.counts.common == |l.byPool.common|
    ensures l.counts.hsv == |InPool(AvailableOf(ts), HSV)|
    ensures l.counts.osv == |InPool(AvailableOf(ts), OSV)|
    ensures l.counts.common == |InPool(AvailableOf(ts), Common)|
    ensures ListsPool(l.byPool.hsv, ts, HSV) && ListsPool(l.byPool.osv, ts, OSV) && ListsPool(l.byPool.common, ts, Common)
    ensures |l.available| == AvailableCount(ts)
    ensures forall c :: c in l.available <==> c in AvailableCodeSet(ts)
  {
    var list := AvailableOf(ts);
    PoolsPartition(list);
    var l := Listing(
      CodesOf(list),
      PoolCounts(|InPool(list, HSV)|, |InPool(list, OSV)|, |InPool(list, Common)|),
      PoolCodes(CodesOf(InPool(list, HSV)), CodesOf(InPool(list, OSV)), CodesOf(InPool(list, Common))));
    AvailableCodesListed(ts);
    PoolCodesListed(ts, HSV);
    PoolCodesListed(ts, OSV);
    PoolCodesListed(ts, Common);
    l
  }

  // ----- The collection -----

  /** The ticket collection: documents in insertion order and the timestamp source. */
  class TicketStore {
    var tickets: seq<Ticket>
    var clock: nat

    ghost predicate Valid()
      reads this
    {
      ValidCollection(tickets, clock)
    }

    constructor ()
      ensures Valid() && tickets == []
    {
      tickets := [];
      clock := 0;
    }

    /** The `findOneAndUpdate` lookup: scan in insertion order for the first match. */
    method FindOne(f: Filter) returns (idx: Option<nat>)
      ensures idx == FirstMatch(tickets, f)
    {
      var i := 0;
      while i < |tickets|
        invariant 0 <= i <= |tickets|
        invariant forall j :: 0 <= j < i ==> !Matches(f, tickets[j])
      {
        if Matches(f, tickets[i]) {
          FirstMatchUnique(tickets, f, i);
          return Some(i);
        }
        i := i + 1;
      }
      FirstMatchUnique(tickets, f, |tickets|);
      return None;
    }

    /** `POST /api/db/tickets/import`. */
    method Import(items: Option<seq<ImportItem>>) returns (r: Reply<nat>)
      requires Valid()
      modifies this
      ensures Valid()
      ensures items.None? || items.value == [] ==> r == Fail(NoItems) && tickets == old(tickets)
      ensures items.Some? && items.value != [] && ValidItems(items.value) == [] ==>
        r == Fail(NoValidItems) && tickets == old(tickets)
      ensures items.Some? && ValidItems(items.value) != [] ==>
        && (tickets, clock) == UpsertAll(old(tickets), old(clock), ValidItems(items.value))
        && r == Ok(|NewCodes(old(tickets), ValidItems(items.value))|)
    {
      if items.None? || items.value == [] {
        return Fail(NoItems);
      }
      var toInsert := CollectValid(items.value);
      if toInsert == [] {
        return Fail(NoValidItems);
      }
      var (ts', clock') := UpsertAll(tickets, clock, toInsert);
      UpsertAllSpec(tickets, clock, toInsert);
      UpsertAllCount(tickets, clock, toInsert);
      r := Ok(|ts'| - |tickets|);
      tickets, clock := ts', clock';
    }

    /** `POST /api/db/tickets/delete`. */
    method Delete(codes: Option<seq<string>>) returns (r: Reply<nat>)
      requires Valid()
      modifies this
      ensures Valid() && clock == old(clock)
      ensures codes.None? || codes.value == [] ==> r == Fail(NoCodes) && tickets == old(tickets)
      ensures codes.Some? && codes.value != [] ==>
        var list := DeleteList(codes.value);
        && tickets == DeleteAvailable(old(tickets), list)
        && r == Ok(|AvailableCodeSet(old(tickets)) * (set k | 0 <= k < |list| :: list[k])|)
    {
      if codes.None? || codes.value == [] {
        return Fail(NoCodes);
      }
      var list := DeleteList(codes.value);
      var remaining := DeleteAvailable(tickets, list);
      DeleteCount(tickets, list);
      DeletedCodesSpec(tickets, list);
      DeleteKeepsCollection(tickets, clock, list);
      r := Ok(|tickets| - |remaining|);
      tickets := remaining;
    }

    /** `POST /api/db/tickets/consume`. */
    method Consume(code: string, userId: string) returns (r: Reply<ConsumeReply>)
      requires Valid()
      modifies this
      ensures Valid() && clock == old(clock)
      ensures !ValidCode(ToUpper(code)) ==> r == Fail(InvalidCode) && tickets == old(tickets)
      ensures ValidCode(ToUpper(code)) ==>
        var upper := ToUpper(code);
        var removed := upper in AvailableCodeSet(old(tickets));
        && tickets == Claim(old(tickets), upper, AssigneeOf(userId))
        && r == Ok(ConsumeReply(removed, if removed then None else Some(NotInAvailable), AvailableCount(tickets)))
    {
      var upper := ToUpper(code);
      if !ValidCode(upper) {
        return Fail(InvalidCode);
      }
      ClaimSpec(tickets, clock, upper, AssigneeOf(userId));
      var idx := FindOne(AvailableCode(upper));
      if idx.None? {
        assert upper !in AvailableCodeSet(tickets);
        return Ok(ConsumeReply(false, Some(NotInAvailable), AvailableCount(tickets)));
      }
      var i := idx.value;
      ClaimAtFirstMatch(tickets, upper, AssigneeOf(userId), i);
      tickets := tickets[i := tickets[i].(status := Used, assignedTo := AssigneeOf(userId))];
      r := Ok(ConsumeReply(true, None, AvailableCount(tickets)));
    }

    /** `POST /api/db/tickets/append`: any known code becomes available, whatever its status. */
    method Append(code: string) returns (r: Reply<AppendReply>)
      requires Valid()
      modifies this
      ensures Valid() && clock == old(clock)
      ensures !ValidCode(ToUpper(code)) ==> r == Fail(InvalidCode) && tickets == old(tickets)
      ensures ValidCode(ToUpper(code)) ==>
        var upper := ToUpper(code);
        var known := upper in CodeSet(old(tickets));
        && tickets == Release(old(tickets), upper)
        && r == Ok(AppendReply(known, if known then None else Some(UnknownCode), AvailableCount(tickets)))
    {
      var upper := ToUpper(code);
      if !ValidCode(upper) {
        return Fail(InvalidCode);
      }
      ReleaseSpec(tickets, upper);
      ReleaseKeepsCollection(tickets, clock, upper);
      var idx := FindOne(CodeIs(upper));
      if idx.None? {
        assert upper !in CodeSet(tickets);
        return Ok(AppendReply(false, Some(UnknownCode), AvailableCount(tickets)));
      }
      var i := idx.value;
      ReleaseAtFirstMatch(tickets, upper, i);
      tickets := tickets[i := tickets[i].(status := Available, assignedTo := None)];
      r := Ok(AppendReply(true, None, AvailableCount(tickets)));
    }

    /** `POST /api/db/tickets/next`: try Common, then the user's own type. */
    method Next(userType: Option<string>, userId: string) returns (r: Reply<NextReply>)
      requires Valid()
      modifies this
      ensures Valid() && clock == old(clock)
      ensures NextIndex(old(tickets), PreferredPools(userType)).None? ==>
        r == Fail(NoTicketsAvailable) && tickets == old(tickets)
      ensures NextIndex(old(tickets), PreferredPools(userType)).Some? ==>
        var i := NextIndex(old(tickets), PreferredPools(userType)).value;
        && tickets == old(tickets)[i := old(tickets)[i].(status := Used, assignedTo := AssigneeOf(userId))]
        && r == Ok(NextReply(old(tickets)[i].code, AvailableCount(tickets)))
    {
      var preferred := PreferredPools(userType);
      var k := 0;
      while k < |preferred|
        invariant 0 <= k <= |preferred|
        invariant tickets == old(tickets) && clock == old(clock)
        invariant NextIndex(tickets, preferred) == NextIndex(tickets, preferred[k..])
      {
        var idx := FindOne(AvailableInPool(preferred[k]));
        assert preferred[k..][1..] == preferred[k + 1..];
        if idx.Some? {
          var i := idx.value;
          ClaimAtFirstMatch(tickets, tickets[i].code, AssigneeOf(userId), i);
          ClaimSpec(tickets, clock, tickets[i].code, AssigneeOf(userId));
          tickets := tickets[i := tickets[i].(status := Used, assignedTo := AssigneeOf(userId))];
          return Ok(NextReply(tickets[i].code, AvailableCount(tickets)));
        }
        k := k + 1;
      }
      return Fail(NoTicketsAvailable);
    }

    /** `GET /api/db/tickets/available`. */
    function Listing(): Listing
      reads this
    {
      ListAvailable(tickets)
    }

    /** `totalAvailableCountDb`. */
    function TotalAvailableCount(): nat
      reads this
    {
      AvailableCount(tickets)
    }
  }

  /** Any index whose predecessors do not match, and which matches or is the end, is the first match. */
  lemma {:induction false} FirstMatchUnique(ts: seq<Ticket>, f: Filter, i: nat)
    requires i <= |ts|
    requires forall j :: 0 <= j < i ==> !Matches(f, ts[j])
    requires i < |ts| ==> Matches(f, ts[i])
    ensures FirstMatch(ts, f) == if i < |ts| then Some(i) else None
  {
    var r := FirstMatch(ts, f);
    if r.Some? {
      assert r.value >= i;
    }
  }
}
