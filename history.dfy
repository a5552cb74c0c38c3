/**
 * The history routes (server/routes/history.ts): recording an action, and
 * listing actions by kind and user, newest first, up to a clamped limit.
 */
module HistoryRoutes {
  import opened Wrappers
  import opened Text
  import opened HistorySchema

  // ----- addHistory -----

  /** The `date` of a request body: falsy, a value `new Date` understands, or one it does not. */
  datatype DateField = NoDate | ParsedDate(ms: int) | UnparsableDate

  /** A request body to `POST /api/history`. */
  datatype HistoryBody = HistoryBody(
    kind: Option<string>,
    userId: Option<string>,
    teamMember: Option<string>,
    code: Option<string>,
    country: Option<string>,
    comments: Option<string>,
    clearanceId: Option<string>,
    date: DateField)

  /** 400 `missing_fields`, or 500 `server_error` when the store refuses the document. */
  datatype AddError = MissingFields | ServerError

  datatype AddOutcome = AddFailed(error: AddError) | AddCreated(entry: HistoryEntry)

  /** JavaScript truthiness of an optional string field. */
  predicate Truthy(v: Option<string>) {
    v.Some? && v.value != ""
  }

  /** `value || undefined`: an empty field is stored as absent. */
  function Optional(v: Option<string>): (r: Option<string>)
    ensures r.Some? <==> Truthy(v)
    ensures r.Some? ==> r == v
  {
    if Truthy(v) then v else None
  }

  /**
   * `addHistory`, with `now` the current time: a falsy kind or code is
   * `missing_fields`; a kind outside the enum or a date `new Date` cannot read
   * makes the insert fail with `server_error`; otherwise the entry holds the
   * kind, the upper-cased code, the non-empty optional fields and the given
   * date or now.
   */
  function AddOutcomeOf(body: HistoryBody, id: nat, now: int): (r: AddOutcome)
    ensures r == AddFailed(MissingFields) <==> !Truthy(body.kind) || !Truthy(body.code)
    ensures r == AddFailed(ServerError) <==>
      Truthy(body.kind) && Truthy(body.code)
      && (HistoryTypeOf(body.kind.value).None? || body.date == UnparsableDate)
    ensures r.AddCreated? ==>
      && WellFormedEntry(r.entry)
      && r.entry.id == id
      && HistoryTypeName(r.entry.kind) == body.kind.value
      && r.entry.code == ToUpper(body.code.value)
      && r.entry.date == (if body.date.ParsedDate? then body.date.ms else now)
      && r.entry.userId == Optional(body.userId)
      && r.entry.teamMember == Optional(body.teamMember)
      && r.entry.country == Optional(body.country)
      && r.entry.comments == Optional(body.comments)
      && r.entry.clearanceId == Optional(body.clearanceId)
  {
    if !Truthy(body.kind) || !Truthy(body.code) then AddFailed(MissingFields)
    else match HistoryTypeOf(body.kind.value)
      case None => AddFailed(ServerError)
      case Some(kind) =>
        if body.date == UnparsableDate then AddFailed(ServerError)
        else
          HistoryTypeRoundTrip(body.kind.value);
          AddCreated(HistoryEntry(
            id, kind,
            Optional(body.userId), Optional(body.teamMember),
            ToUpper(body.code.value),
            Optional(body.country), Optional(body.comments), Optional(body.clearanceId),
            if body.date.ParsedDate? then body.date.ms else now))
  }

  /** A recorded code can be found again by the upper-cased code that was sent. */
  lemma AddedCodeIsUpper(body: HistoryBody, id: nat, now: int)
    ensures var r := AddOutcomeOf(body, id, now);
      r.AddCreated? ==> ToUpper(r.entry.code) == r.entry.code
  {
    if AddOutcomeOf(body, id, now).AddCreated? {
      UpperIdempotent(body.code.value);
    }
  }

  // ----- listHistory: the filter -----

  /** The query string of `GET /api/history`. */
  datatype HistoryQuery = HistoryQuery(kind: Option<string>, userId: Option<string>, limit: Option<string>)

  /** The Mongo filter `q`: a kind and a user, each optional. */
  datatype Filter = Filter(kind: Option<HistoryType>, userId: Option<string>)

  /** `q`: the kind is set only for one of the three names, the user only when non-empty. */
  function BuildFilter(query: HistoryQuery): (f: Filter)
    ensures f.kind.Some? <==> Truthy(query.kind) && query.kind.value in {"generated", "submitted", "cleared"}
    ensures f.kind.Some? ==> HistoryTypeName(f.kind.value) == query.kind.value
    ensures f.userId == Optional(query.userId)
  {
    if Truthy(query.kind) then
      HistoryTypeRoundTrip(query.kind.value);
      Filter(HistoryTypeOf(query.kind.value), Optional(query.userId))
    else
      Filter(None, Optional(query.userId))
  }

  predicate Matches(f: Filter, e: HistoryEntry) {
    && (f.kind.Some? ==> e.kind == f.kind.value)
    && (f.userId.Some? ==> e.userId == f.userId)
  }

  /** An unknown kind is ignored: the query then filters by user only. */
  lemma UnknownKindIgnored(query: HistoryQuery)
    requires query.kind.Some? && query.kind.value !in {"generated", "submitted", "cleared"}
    ensures BuildFilter(query) == BuildFilter(query.(kind := None))
  {
  }

  /** `find(q)`: the matching entries, in store order. */
  function Select(entries: seq<HistoryEntry>, f: Filter): (r: seq<HistoryEntry>)
    ensures |r| <= |entries|
    ensures forall e :: e in r <==> e in entries && Matches(f, e)
    ensures multiset(r) <= multiset(entries)
    ensures forall e :: multiset(r)[e] == if Matches(f, e) then multiset(entries)[e] else 0
  {
    if entries == [] then []
    else
      assert entries == [entries[0]] + entries[1..];
      assert multiset(entries) == multiset{entries[0]} + multiset(entries[1..]);
      (if Matches(f, entries[0]) then [entries[0]] else []) + Select(entries[1..], f)
  }

  // ----- listHistory: the limit -----

  function DigitValue(c: char): nat
    requires IsDigit(c)
  {
    c as nat - '0' as nat
  }

  /** The longest prefix made of decimal digits. */
  function DigitPrefix(s: string): (p: string)
    ensures p <= s
    ensures forall i :: 0 <= i < |p| ==> IsDigit(p[i])
    ensures |p| < |s| ==> !IsDigit(s[|p|])
  {
    if s == [] || !IsDigit(s[0]) then [] else [s[0]] + DigitPrefix(s[1..])
  }

  /** The number a string of decimal digits denotes. */
  function DigitsValue(ds: string): nat
    requires forall i :: 0 <= i < |ds| ==> IsDigit(ds[i])
  {
    if ds == [] then 0 else 10 * DigitsValue(ds[..|ds| - 1]) + DigitValue(ds[|ds| - 1])
  }

  /** Leading white space dropped, as `parseInt` does. */
  function SkipSpaces(s: string): (r: string)
    ensures r == [] || !IsJsWhitespace(r[0])
    ensures |r| <= |s| && r == s[|s| - |r|..]
  {
    if s != [] && IsJsWhitespace(s[0]) then SkipSpaces(s[1..]) else s
  }

  /** The digits at the start of `s` read as a number; `None` when `s` does not start with a digit. */
  function ParseDigits(s: string): (r: Option<nat>)
    ensures r.None? <==> s == [] || !IsDigit(s[0])
  {
    var ds := DigitPrefix(s);
    if ds == [] then None else Some(DigitsValue(ds))
  }

  /**
   * `parseInt(s, 10)`: after leading white space and an optional sign, the
   * longest run of digits; `None` (NaN) when there is none.
   */
  function ParseInt(s: string): (r: Option<int>)
    ensures r.Some? && r.value < 0 ==> SkipSpaces(s) != [] && SkipSpaces(s)[0] == '-'
  {
    var t := SkipSpaces(s);
    if t != [] && t[0] == '-' then
      match ParseDigits(t[1..])
      case None => None
      case Some(v) => Some(-(v as int))
    else if t != [] && t[0] == '+' then
      match ParseDigits(t[1..])
      case None => None
      case Some(v) => Some(v as int)
    else
      match ParseDigits(t)
      case None => None
      case Some(v) => Some(v as int)
  }

  /** The canonical decimal spelling of a number. */
  function Decimal(n: nat): (s: string)
    ensures s != []
    ensures forall i :: 0 <= i < |s| ==> IsDigit(s[i])
  {
    var last := ['0' + (n % 10) as char];
    if n < 10 then last else Decimal(n / 10) + last
  }

  lemma {:induction false} DecimalValue(n: nat)
    ensures DigitsValue(Decimal(n)) == n
  {
    var s := Decimal(n);
    if n >= 10 {
      DecimalValue(n / 10);
      assert s[..|s| - 1] == Decimal(n / 10);
    }
  }

  lemma {:induction false} DigitPrefixAppend(d: string, tail: string)
    requires forall i :: 0 <= i < |d| ==> IsDigit(d[i])
    requires tail == [] || !IsDigit(tail[0])
    ensures DigitPrefix(d + tail) == d
  {
    if d == [] {
      assert d + tail == tail;
    } else {
      assert (d + tail)[1..] == d[1..] + tail;
      DigitPrefixAppend(d[1..], tail);
    }
  }

  /** Neither a digit nor a minus sign is white space, so `parseInt` starts reading at once. */
  lemma NoLeadingSpace(s: string)
    requires s != [] && (IsDigit(s[0]) || s[0] == '-')
    ensures SkipSpaces(s) == s
  {
    assert !IsJsWhitespace(s[0]);
  }

  /** A run of digits followed by a non-digit is read as the number the digits denote. */
  lemma ParseDigitsRun(d: string, tail: string)
    requires d != [] && forall i :: 0 <= i < |d| ==> IsDigit(d[i])
    requires tail == [] || !IsDigit(tail[0])
    ensures ParseDigits(d + tail) == Some(DigitsValue(d))
  {
    DigitPrefixAppend(d, tail);
  }

  /** `parseInt` on a string that starts with a digit: the digits at its start. */
  lemma ParseIntUnsigned(s: string)
    requires s != [] && IsDigit(s[0])
    ensures ParseInt(s) == Some(ParseDigits(s).value as int)
  {
    NoLeadingSpace(s);
  }

  /** `parseInt` on a minus sign followed by digits: the negated digits. */
  lemma ParseIntMinus(rest: string, v: nat)
    requires rest != [] && IsDigit(rest[0]) && ParseDigits(rest) == Some(v)
    ensures ParseInt("-" + rest) == Some(-(v as int))
  {
    var s := "-" + rest;
    assert s[1..] == rest;
    NoLeadingSpace(s);
  }

  /** `parseInt` reads back the decimal spelling of a number and ignores what follows it, as in "20items". */
  lemma ParseIntNatural(n: nat, tail: string)
    requires tail == [] || !IsDigit(tail[0])
    ensures ParseInt(Decimal(n) + tail) == Some(n)
  {
    var d := Decimal(n);
    DecimalValue(n);
    ParseDigitsRun(d, tail);
    ParseIntUnsigned(d + tail);
  }

  /** The same with a minus sign, as in "-7px". */
  lemma ParseIntNegative(n: nat, tail: string)
    requires tail == [] || !IsDigit(tail[0])
    ensures ParseInt("-" + (Decimal(n) + tail)) == Some(-(n as int))
  {
    var d := Decimal(n);
    DecimalValue(n);
    ParseDigitsRun(d, tail);
    assert (d + tail)[0] == d[0];
    ParseIntMinus(d + tail, n);
  }

  /** The default limit string reads as 100. */
  lemma ParseDefaultLimit()
    ensures ParseInt("100") == Some(100)
  {
    var d := "100";
    assert DigitsValue([]) == 0;
    assert DigitsValue("1") == 1 by { assert "1"[..0] == []; }
    assert DigitsValue("10") == 10 by { assert "10"[..1] == "1"; }
    assert DigitsValue(d) == 100 by { assert d[..2] == "10"; }
    ParseDigitsRun(d, []);
    assert d + [] == d;
    NoLeadingSpace(d);
  }

  const DEFAULT_LIMIT: int := 100
  const MAX_LIMIT: int := 500

  /**
   * `Math.min(Math.max(parseInt(String(limit || "100"), 10) || 100, 1), 500)`:
   * a missing, empty, unreadable or zero limit is 100; otherwise the number
   * read, clamped into [1, 500].
   */
  function EffectiveLimit(limit: Option<string>): (lim: int)
    ensures 1 <= lim <= MAX_LIMIT
    ensures !Truthy(limit) ==> lim == DEFAULT_LIMIT
    ensures Truthy(limit) ==>
      var p := ParseInt(limit.value);
      && (p.None? || p == Some(0) ==> lim == DEFAULT_LIMIT)
      && (p.Some? && p.value < 0 ==> lim == 1)
      && (p.Some? && p.value > MAX_LIMIT ==> lim == MAX_LIMIT)
      && (p.Some? && 1 <= p.value <= MAX_LIMIT ==> lim == p.value)
  {
    var raw := if Truthy(limit) then limit.value else "100";
    var parsed := ParseInt(raw);
    ParseDefaultLimit();
    var n := if parsed.None? || parsed.value == 0 then DEFAULT_LIMIT else parsed.value;
    var atLeastOne := if n < 1 then 1 else n;
    if atLeastOne > MAX_LIMIT then MAX_LIMIT else atLeastOne
  }

  /** A limit written as a number: 0 falls back to 100 (`0 || 100`), the rest is clamped into [1, 500]. */
  lemma LimitOfNatural(n: nat)
    ensures EffectiveLimit(Some(Decimal(n))) == if n == 0 then DEFAULT_LIMIT else if n > MAX_LIMIT then MAX_LIMIT else n
  {
    ParseIntNatural(n, []);
    assert Decimal(n) + [] == Decimal(n);
  }

  /** A negative limit gives 1. */
  lemma LimitOfNegative(n: nat)
    requires n > 0
    ensures EffectiveLimit(Some("-" + Decimal(n))) == 1
  {
    ParseIntNegative(n, []);
    assert Decimal(n) + [] == Decimal(n);
  }

  // ----- listHistory: the order -----

  /** Newest first: dates never increase along the list. */
  predicate NewestFirst(s: seq<HistoryEntry>) {
    forall i, j :: 0 <= i < j < |s| ==> s[i].date >= s[j].date
  }

  /** Insert one entry into a newest-first list, after every entry at least as new. */
  function InsertByDate(e: HistoryEntry, s: seq<HistoryEntry>): (r: seq<HistoryEntry>)
    ensures |r| == |s| + 1
    ensures multiset(r) == multiset(s) + multiset{e}
  {
    if s == [] then [e]
    else if s[0].date >= e.date then
      var rest := InsertByDate(e, s[1..]);
      assert s == [s[0]] + s[1..];
      [s[0]] + rest
    else [e] + s
  }

  lemma InsertedFrom(e: HistoryEntry, s: seq<HistoryEntry>, x: HistoryEntry)
    requires x in InsertByDate(e, s)
    ensures x == e || x in s
  {
    assert x in multiset(InsertByDate(e, s));
  }

  /** Inserting keeps a list newest first. */
  lemma {:induction false} InsertKeepsOrder(e: HistoryEntry, s: seq<HistoryEntry>)
    requires NewestFirst(s)
    ensures NewestFirst(InsertByDate(e, s))
  {
    if s != [] && s[0].date >= e.date {
      var rest := InsertByDate(e, s[1..]);
      InsertKeepsOrder(e, s[1..]);
      var r := [s[0]] + rest;
      forall j | 0 <= j < |rest| ensures s[0].date >= rest[j].date {
        InsertedFrom(e, s[1..], rest[j]);
        if rest[j] != e {
          var i :| 0 <= i < |s[1..]| && s[1..][i] == rest[j];
          assert s[i + 1] == rest[j];
        }
      }
      assert forall i :: 0 < i < |r| ==> r[i] == rest[i - 1];
    }
  }

  /** `sort({ date: -1 })`: the entries newest first; ties keep no particular order. */
  function SortNewestFirst(s: seq<HistoryEntry>): (r: seq<HistoryEntry>)
    ensures |r| == |s|
    ensures multiset(r) == multiset(s)
  {
    if s == [] then []
    else
      assert s == [s[0]] + s[1..];
      InsertByDate(s[0], SortNewestFirst(s[1..]))
  }

  /** Sorting yields a newest-first list. */
  lemma {:induction false} SortIsNewestFirst(s: seq<HistoryEntry>)
    ensures NewestFirst(SortNewestFirst(s))
  {
    if s != [] {
      SortIsNewestFirst(s[1..]);
      InsertKeepsOrder(s[0], SortNewestFirst(s[1..]));
    }
  }

  /** `limit(lim)`: at most the first `lim` entries. */
  function Take(s: seq<HistoryEntry>, lim: int): (r: seq<HistoryEntry>)
    ensures r <= s
    ensures |r| == if lim < 0 then 0 else if lim < |s| then lim else |s|
  {
    if lim <= 0 then [] else if lim < |s| then s[..lim] else s
  }

  /** `listHistory`: the matching entries, newest first, at most the effective limit of them. */
  function ListHistory(entries: seq<HistoryEntry>, query: HistoryQuery): seq<HistoryEntry> {
    Take(SortNewestFirst(Select(entries, BuildFilter(query))), EffectiveLimit(query.limit))
  }

  /**
   * What a listing returns: as many entries as match, up to the effective
   * limit; every one matching the filter; newest first.
   */
  lemma ListHistorySpec(entries: seq<HistoryEntry>, query: HistoryQuery)
    ensures var r := ListHistory(entries, query);
      var matching := Select(entries, BuildFilter(query));
      && |r| == (if EffectiveLimit(query.limit) < |matching| then EffectiveLimit(query.limit) else |matching|)
      && NewestFirst(r)
      && (forall e :: e in r ==> e in entries && Matches(BuildFilter(query), e))
  {
    var matching := Select(entries, BuildFilter(query));
    var sorted := SortNewestFirst(matching);
    SortIsNewestFirst(matching);
    var r := ListHistory(entries, query);
    assert r == sorted[..|r|];
    ListedAreMatching(matching, EffectiveLimit(query.limit));
  }

  /** What a sorted, limited listing returns is among the entries it was taken from. */
  lemma ListedAreMatching(matching: seq<HistoryEntry>, limit: nat)
    ensures forall e :: e in Take(SortNewestFirst(matching), limit) ==> e in matching
  {
    var sorted := SortNewestFirst(matching);
    forall e | e in Take(sorted, limit) ensures e in matching {
      assert e in multiset(sorted);
    }
  }

  /** No matching entry left out of a listing is newer than one in it. */
  lemma ListHistoryNewest(entries: seq<HistoryEntry>, query: HistoryQuery)
    ensures var r := ListHistory(entries, query);
      var matching := Select(entries, BuildFilter(query));
      && multiset(r) <= multiset(matching)
      && forall x, y :: x in r && y in multiset(matching) - multiset(r) ==> x.date >= y.date
  {
    var matching := Select(entries, BuildFilter(query));
    var sorted := SortNewestFirst(matching);
    SortIsNewestFirst(matching);
    var r := ListHistory(entries, query);
    var k := |r|;
    assert r == sorted[..k];
    PrefixRest(sorted, k);
    PrefixNewer(sorted, k);
  }

  /** In a newest-first list, every entry of a prefix is at least as new as every entry after it. */
  lemma PrefixNewer(s: seq<HistoryEntry>, k: nat)
    requires k <= |s| && NewestFirst(s)
    ensures forall x, y :: x in s[..k] && y in multiset(s[k..]) ==> x.date >= y.date
  {
    forall x, y | x in s[..k] && y in multiset(s[k..]) ensures x.date >= y.date {
      var i :| 0 <= i < k && s[..k][i] == x;
      assert y in s[k..];
      var j :| 0 <= j < |s[k..]| && s[k..][j] == y;
      assert s[i] == x && s[k + j] == y;
    }
  }

  lemma PrefixRest(s: seq<HistoryEntry>, k: nat)
    requires k <= |s|
    ensures multiset(s) - multiset(s[..k]) == multiset(s[k..])
    ensures multiset(s[..k]) <= multiset(s)
  {
    assert s == s[..k] + s[k..];
  }

  // ----- The store -----

  /** The history collection: entries in insertion order and the next id. */
  class HistoryStore {
    var entries: seq<HistoryEntry>
    var nextId: nat

    ghost predicate Valid()
      reads this
    {
      forall i :: 0 <= i < |entries| ==> WellFormedEntry(entries[i]) && entries[i].id < nextId
    }

    constructor ()
      ensures Valid() && entries == []
    {
      entries := [];
      nextId := 0;
    }

    /** `POST /api/history`, at time `now`: answers the new id, or the error. */
    method AddHistory(body: HistoryBody, now: int) returns (r: Option<AddError>, id: nat)
      requires Valid()
      modifies this
      ensures Valid()
      ensures var o := AddOutcomeOf(body, old(nextId), now);
        && (o.AddFailed? ==> r == Some(o.error) && entries == old(entries) && nextId == old(nextId))
        && (o.AddCreated? ==> r == None && id == old(nextId) && entries == old(entries) + [o.entry] && nextId == old(nextId) + 1)
    {
      var o := AddOutcomeOf(body, nextId, now);
      id := nextId;
      if o.AddFailed? {
        return Some(o.error), id;
      }
      entries := entries + [o.entry];
      nextId := nextId + 1;
      r := None;
    }

    /** `GET /api/history`. */
    function List(query: HistoryQuery): seq<HistoryEntry>
      reads this
    {
      ListHistory(entries, query)
    }
  }
}
