/**
 * The legacy in-memory ticket pool (server/routes/tickets.ts): three region
 * sets of seeded codes (NA, EU, FE), the map remembering which region a
 * consumed code came from, and the fixed seed map. JavaScript `Set`s keep
 * insertion order, so each region set is a duplicate-free sequence here.
 */
module RegionTickets {
  import opened Wrappers
  import opened Text
  import opened Codes

  datatype Region = NA | EU | FE

  const NA_SEED: seq<string> := ["4F7G9K1M2P", "B8N2Z3Q5X1", "9V3W1J7L6T"]
  const EU_SEED: seq<string> := ["C5D8H2P0R7", "X1M4A8B9L3", "P7R2V4C5Q8"]
  const FE_SEED: seq<string> := ["2L9X5F0N3Z", "J6K1V3B8P0", "W0T7Z5Q2Y8", "M3N9C1A7L4"]

  /** `Object.keys(availableByRegion)`: the order in which regions are searched. */
  const REGION_ORDER: seq<Region> := [NA, EU, FE]

  function Seed(r: Region): seq<string> {
    match r
    case NA => NA_SEED
    case EU => EU_SEED
    case FE => FE_SEED
  }

  /** `regionByCode`, filled region by region in NA, EU, FE order (a later region would win). */
  function SeedRegionMap(): map<string, Region> {
    (map c | c in NA_SEED :: NA) + (map c | c in EU_SEED :: EU) + (map c | c in FE_SEED :: FE)
  }

  predicate Distinct(s: seq<string>) {
    forall i, j :: 0 <= i < j < |s| ==> s[i] != s[j]
  }

  /** Every seeded code is a valid ticket code. */
  lemma SeedCodesValid()
    ensures forall r: Region, c :: c in Seed(r) ==> ValidCode(c)
  {
    forall r: Region, c | c in Seed(r) ensures ValidCode(c) {
      assert c in NA_SEED || c in EU_SEED || c in FE_SEED;
    }
  }

  /** No region is seeded with a code twice, and no code is seeded in two regions. */
  lemma SeedsDisjoint()
    ensures forall r: Region :: Distinct(Seed(r))
    ensures forall c :: c in NA_SEED ==> c !in EU_SEED && c !in FE_SEED
    ensures forall c :: c in EU_SEED ==> c !in FE_SEED
  {
  }

  /** The seed map holds exactly the seeded codes and sends each to the region that seeded it. */
  lemma SeedMapRegions()
    ensures forall c :: c in SeedRegionMap() <==> c in NA_SEED || c in EU_SEED || c in FE_SEED
    ensures forall r: Region, c :: c in Seed(r) ==> c in SeedRegionMap() && SeedRegionMap()[c] == r
  {
    SeedsDisjoint();
  }

  // ----- The region sets as a value -----

  datatype Pools = Pools(na: seq<string>, eu: seq<string>, fe: seq<string>)

  function PoolOf(p: Pools, r: Region): seq<string> {
    match r
    case NA => p.na
    case EU => p.eu
    case FE => p.fe
  }

  function WithPool(p: Pools, r: Region, s: seq<string>): (q: Pools)
    ensures PoolOf(q, r) == s
    ensures forall r' :: r' != r ==> PoolOf(q, r') == PoolOf(p, r')
  {
    match r
    case NA => p.(na := s)
    case EU => p.(eu := s)
    case FE => p.(fe := s)
  }

  /** `isInAnyAvailable`. */
  predicate InAny(p: Pools, code: string) {
    code in p.na || code in p.eu || code in p.fe
  }

  /** `totalAvailableCount`: the sum of the three set sizes. */
  function Total(p: Pools): nat {
    |p.na| + |p.eu| + |p.fe|
  }

  /** Each region is a set (no duplicates) and no code is in two regions. */
  predicate ValidPools(p: Pools) {
    && Distinct(p.na) && Distinct(p.eu) && Distinct(p.fe)
    && (forall c :: c in p.na ==> c !in p.eu && c !in p.fe)
    && (forall c :: c in p.eu ==> c !in p.fe)
  }

  /** The full module state: the region sets and `usedRegionByCode`. */
  datatype RegionState = RegionState(pools: Pools, usedRegion: map<string, Region>)

  /** A code is remembered as used only while it is in no available set. */
  predicate ValidState(s: RegionState) {
    ValidPools(s.pools) && forall c :: c in s.usedRegion ==> !InAny(s.pools, c)
  }

  /** `Set.prototype.delete`: the other elements keep their order. */
  function SetDelete(s: seq<string>, c: string): (r: seq<string>)
    ensures forall x :: x in r <==> x in s && x != c
    ensures |r| <= |s|
  {
    if s == [] then []
    else (if s[0] == c then [] else [s[0]]) + SetDelete(s[1..], c)
  }

  /** `Set.prototype.add`: a new element goes to the end. */
  function SetAdd(s: seq<string>, c: string): seq<string> {
    if c in s then s else s + [c]
  }

  lemma {:induction false} SetDeleteDistinct(s: seq<string>, c: string)
    requires Distinct(s)
    ensures Distinct(SetDelete(s, c))
    ensures |SetDelete(s, c)| == if c in s then |s| - 1 else |s|
  {
    if s != [] {
      SetDeleteDistinct(s[1..], c);
      assert s[0] !in s[1..] by {
        forall k | 0 <= k < |s[1..]| ensures s[1..][k] != s[0] {
          assert s[1..][k] == s[k + 1];
        }
      }
      assert c in s <==> c == s[0] || c in s[1..];
    }
  }

  /** The first region, in NA, EU, FE order, whose set holds the code. */
  function RegionHolding(p: Pools, code: string): (r: Option<Region>)
    ensures r.Some? ==> code in PoolOf(p, r.value)
    ensures r.None? <==> !InAny(p, code)
  {
    if code in p.na then Some(NA) else if code in p.eu then Some(EU) else if code in p.fe then Some(FE) else None
  }

  /** `appendTicket`'s region: `usedRegionByCode.get(code) ?? regionByCode.get(code)`. */
  function ReturnRegion(s: RegionState, seeds: map<string, Region>, code: string): Option<Region> {
    if code in s.usedRegion then Some(s.usedRegion[code])
    else if code in seeds then Some(seeds[code])
    else None
  }

  /** The state after a successful consume: the code leaves its region and is remembered. */
  function AfterConsume(s: RegionState, code: string, r: Region): RegionState {
    RegionState(WithPool(s.pools, r, SetDelete(PoolOf(s.pools, r), code)), s.usedRegion[code := r])
  }

  /** The state after a successful append: the code joins the region and is forgotten. */
  function AfterAppend(s: RegionState, code: string, r: Region): RegionState {
    RegionState(WithPool(s.pools, r, SetAdd(PoolOf(s.pools, r), code)), s.usedRegion - {code})
  }

  /** A consume removes the code from every available set, drops the total by exactly one and keeps the invariant. */
  lemma ConsumeSpec(s: RegionState, code: string)
    requires ValidState(s)
    requires RegionHolding(s.pools, code).Some?
    ensures var s' := AfterConsume(s, code, RegionHolding(s.pools, code).value);
      && ValidState(s')
      && !InAny(s'.pools, code)
      && Total(s'.pools) == Total(s.pools) - 1
      && s'.usedRegion == s.usedRegion[code := RegionHolding(s.pools, code).value]
  {
    var r := RegionHolding(s.pools, code).value;
    SetDeleteDistinct(PoolOf(s.pools, r), code);
  }

  /** An append of a code in no set, with a region to return to, adds it to that region only, raising the total by one. */
  lemma AppendSpec(s: RegionState, code: string, r: Region)
    requires ValidState(s)
    requires !InAny(s.pools, code)
    ensures var s' := AfterAppend(s, code, r);
      && ValidState(s')
      && RegionHolding(s'.pools, code) == Some(r)
      && Total(s'.pools) == Total(s.pools) + 1
      && code !in s'.usedRegion
  {
    var s' := AfterAppend(s, code, r);
    var pool := PoolOf(s.pools, r);
    assert Distinct(pool + [code]);
    assert forall r' :: r' != r ==> PoolOf(s'.pools, r') == PoolOf(s.pools, r');
  }

  /**
   * Consume then append of the same code puts it back into the region it came
   * from: every region set has its former elements again (the returned code now
   * last in its region), and `usedRegionByCode` is as before.
   */
  lemma ConsumeAppendRoundTrip(s: RegionState, seeds: map<string, Region>, code: string)
    requires ValidState(s)
    requires RegionHolding(s.pools, code).Some?
    ensures var r := RegionHolding(s.pools, code).value;
      var mid := AfterConsume(s, code, r);
      && ReturnRegion(mid, seeds, code) == Some(r)
      && var s' := AfterAppend(mid, code, r);
      && (forall r', c :: c in PoolOf(s'.pools, r') <==> c in PoolOf(s.pools, r'))
      && PoolOf(s'.pools, r) == SetDelete(PoolOf(s.pools, r), code) + [code]
      && s'.usedRegion == s.usedRegion
  {
    var r := RegionHolding(s.pools, code).value;
    ConsumeSpec(s, code);
    var mid := AfterConsume(s, code, r);
    var s' := AfterAppend(mid, code, r);
    assert code !in s.usedRegion;
    assert s'.usedRegion == s.usedRegion;
  }

  // ----- Requests and replies -----

  datatype Reason = NotInAvailable | AlreadyAvailable | UnknownCode
  datatype LegacyError = InvalidRegion | InvalidUserType | InvalidCode | NoTicketsAvailable

  datatype Reply<T> = Ok(body: T) | Fail(error: LegacyError)

  datatype ConsumeReply = ConsumeReply(removed: bool, reason: Option<Reason>, availableCount: nat)
  datatype AppendReply = AppendReply(added: bool, reason: Option<Reason>, availableCount: nat)
  datatype NextReply = NextReply(code: string, availableCount: nat)

  /**
   * `JSON.parse(process.env.TICKETS_DATA || "{}")`: either it throws (the
   * `catch` branch) or it yields, per user type, the `available` list when that
   * entry and its list are present.
   */
  datatype TicketsData = ParseFailed | Parsed(available: map<string, seq<string>>)

  /** `isRegion` on the upper-cased query. */
  function ParseRegion(s: string): (r: Option<Region>)
    ensures r == Some(NA) <==> s == "NA"
    ensures r == Some(EU) <==> s == "EU"
    ensures r == Some(FE) <==> s == "FE"
  {
    if s == "NA" then Some(NA) else if s == "EU" then Some(EU) else if s == "FE" then Some(FE) else None
  }

  /** The module-level state of the route file. */
  class RegionTicketService {
    var na: seq<string>
    var eu: seq<string>
    var fe: seq<string>
    var usedRegionByCode: map<string, Region>
    const regionByCode: map<string, Region>

    function State(): RegionState
      reads this
    {
      RegionState(Pools(na, eu, fe), usedRegionByCode)
    }

    ghost predicate Valid()
      reads this
    {
      ValidState(State()) && regionByCode == SeedRegionMap()
    }

    /** Module initialisation: each region set holds its seed list; nothing is used yet. */
    constructor ()
      ensures Valid()
      ensures na == NA_SEED && eu == EU_SEED && fe == FE_SEED && usedRegionByCode == map[]
    {
      SeedsDisjoint();
      na, eu, fe := NA_SEED, EU_SEED, FE_SEED;
      usedRegionByCode := map[];
      regionByCode := SeedRegionMap();
    }

    /** `isInAnyAvailable`. */
    predicate IsInAnyAvailable(code: string)
      reads this
    {
      InAny(State().pools, code)
    }

    /** `totalAvailableCount`. */
    function TotalAvailableCount(): nat
      reads this
    {
      Total(State().pools)
    }

    /** `listAvailable`: NA, then EU, then FE, each in insertion order. */
    function ListAvailable(): (codes: seq<string>)
      reads this
      ensures |codes| == TotalAvailableCount()
      ensures forall c :: c in codes <==> IsInAnyAvailable(c)
    {
      na + eu + fe
    }

    /**
     * `GET /api/tickets/generate`: validate region and type, then read the
     * parsed TICKETS_DATA; only when parsing fails is the region set consulted.
     * Nothing is removed either way.
     */
    method GetNextTicket(regionQuery: string, typeQuery: string, data: TicketsData) returns (r: Reply<NextReply>)
      ensures ParseRegion(ToUpper(regionQuery)).None? ==> r == Fail(InvalidRegion)
      ensures ParseRegion(ToUpper(regionQuery)).Some? ==>
        var userType := ToUpper(if typeQuery == "" then "HSV" else typeQuery);
        var pool := PoolOf(State().pools, ParseRegion(ToUpper(regionQuery)).value);
        if userType != "HSV" && userType != "OSV" then r == Fail(InvalidUserType)
        else match data
          case ParseFailed =>
            r == if pool == [] then Fail(NoTicketsAvailable) else Ok(NextReply(pool[0], |pool|))
          case Parsed(m) =>
            var list := if userType in m then m[userType] else [];
            r == if list == [] then Fail(NoTicketsAvailable) else Ok(NextReply(list[0], |list|))
    {
      var region := ParseRegion(ToUpper(regionQuery));
      var userType := ToUpper(if typeQuery == "" then "HSV" else typeQuery);
      if region.None? {
        return Fail(InvalidRegion);
      }
      if userType != "HSV" && userType != "OSV" {
        return Fail(InvalidUserType);
      }
      var availableTickets: seq<string> := [];
      match data {
        case ParseFailed =>
          var pool := PoolOf(State().pools, region.value);
          if pool == [] {
            return Fail(NoTicketsAvailable);
          }
          return Ok(NextReply(pool[0], |pool|));
        case Parsed(m) =>
          if userType in m {
            availableTickets := m[userType];
          }
      }
      if availableTickets == [] {
        return Fail(NoTicketsAvailable);
      }
      return Ok(NextReply(availableTickets[0], |availableTickets|));
    }

    /** `POST /api/tickets/consume`. */
    method ConsumeTicket(code: string) returns (r: Reply<ConsumeReply>)
      requires Valid()
      modifies this
      ensures Valid()
      ensures !ValidCode(ToUpper(code)) ==> r == Fail(InvalidCode) && State() == old(State())
      ensures ValidCode(ToUpper(code)) ==>
        var upper := ToUpper(code);
        match RegionHolding(old(State()).pools, upper)
        case None =>
          State() == old(State()) && r == Ok(ConsumeReply(false, Some(NotInAvailable), TotalAvailableCount()))
        case Some(region) =>
          State() == AfterConsume(old(State()), upper, region)
          && r == Ok(ConsumeReply(true, None, TotalAvailableCount()))
    {
      var upper := ToUpper(code);
      if !ValidCode(upper) {
        return Fail(InvalidCode);
      }
      var region: Option<Region> := None;
      var k := 0;
      while k < |REGION_ORDER|
        invariant 0 <= k <= |REGION_ORDER|
        invariant region.None? ==> forall m :: 0 <= m < k ==> upper !in PoolOf(State().pools, REGION_ORDER[m])
        invariant region.Some? ==> region == RegionHolding(State().pools, upper)
      {
        if upper in PoolOf(State().pools, REGION_ORDER[k]) {
          region := Some(REGION_ORDER[k]);
          break;
        }
        k := k + 1;
      }
      if region.None? {
        assert REGION_ORDER[0] == NA && REGION_ORDER[1] == EU && REGION_ORDER[2] == FE;
        return Ok(ConsumeReply(false, Some(NotInAvailable), TotalAvailableCount()));
      }
      ConsumeSpec(State(), upper);
      match region.value {
        case NA => na := SetDelete(na, upper);
        case EU => eu := SetDelete(eu, upper);
        case FE => fe := SetDelete(fe, upper);
      }
      usedRegionByCode := usedRegionByCode[upper := region.value];
      r := Ok(ConsumeReply(true, None, TotalAvailableCount()));
    }

    /** `POST /api/tickets/append`. */
    method AppendTicket(code: string) returns (r: Reply<AppendReply>)
      requires Valid()
      modifies this
      ensures Valid()
      ensures !ValidCode(ToUpper(code)) ==> r == Fail(InvalidCode) && State() == old(State())
      ensures ValidCode(ToUpper(code)) ==>
        var upper := ToUpper(code);
        if InAny(old(State()).pools, upper) then
          State() == old(State()) && r == Ok(AppendReply(false, Some(AlreadyAvailable), TotalAvailableCount()))
        else match ReturnRegion(old(State()), regionByCode, upper)
          case None =>
            State() == old(State()) && r == Ok(AppendReply(false, Some(UnknownCode), TotalAvailableCount()))
          case Some(region) =>
            State() == AfterAppend(old(State()), upper, region)
            && r == Ok(AppendReply(true, None, TotalAvailableCount()))
    {
      var upper := ToUpper(code);
      if !ValidCode(upper) {
        return Fail(InvalidCode);
      }
      if IsInAnyAvailable(upper) {
        return Ok(AppendReply(false, Some(AlreadyAvailable), TotalAvailableCount()));
      }
      var region := ReturnRegion(State(), regionByCode, upper);
      if region.None? {
        return Ok(AppendReply(false, Some(UnknownCode), TotalAvailableCount()));
      }
      AppendSpec(State(), upper, region.value);
      match region.value {
        case NA => na := SetAdd(na, upper);
        case EU => eu := SetAdd(eu, upper);
        case FE => fe := SetAdd(fe, upper);
      }
      usedRegionByCode := usedRegionByCode - {upper};
      r := Ok(AppendReply(true, None, TotalAvailableCount()));
    }
  }
}
