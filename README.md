# Ek-code ticket pool — a Dafny model

The Ek-code application hands out single-use voucher codes ("Ek-codes") to
teams. A code is ten characters from `[A-Z0-9]`. It sits in one of three
pools (HSV, OSV, Common), and it moves between `available` and `used` as
teams claim it, return it, or get the next free one. Around that state
machine sit an admin dashboard that imports, deletes and counts codes, a
user directory with normalised-email uniqueness, a history log with a
clamped query limit, and a few pure helpers on the user page.

This project models that core in Dafny and proves what it promises:

- `TicketsDb` models the database-backed pool. The collection is a sequence
  of tickets in creation order, held in the class `TicketStore`. Each route
  becomes a method: import, delete, consume, append, next and listing. Each
  method's `ensures` ties the new collection to a step function:
  `UpsertAll`, `DeleteAvailable`, `Claim`, `Release` or `NextIndex`. Lemmas
  prove what those functions mean:
  - codes stay unique and `createdAt` strictly increases;
  - `inserted` counts the distinct new codes, and importing again inserts nothing;
  - delete removes exactly the available listed tickets;
  - claiming then releasing restores the collection;
  - next takes the oldest available ticket of the first non-empty preferred pool;
  - the listing's counts add up.
- `TicketSchema` is the ticket record and the collection invariant.
- `RegionTickets` models the legacy in-memory region pool, in the class
  `RegionTicketService`: three region sets plus the code-to-region maps. It
  proves that the seeds are disjoint valid codes, that consume and append
  keep the sets disjoint and change the total by one, and that a consume
  followed by an append restores every region's contents.
- `AdminDashboard` models the browser-side store of the admin page: the CSV
  parser, the add, upload and delete handlers over the four code lists, the
  totals, and the create-user checks. The class `Dashboard` holds the state.
- `IndexPage` models the ordinal day suffix, the country-to-region lookup and
  the validity of the two code fields.
- `UserSchema` and `UsersRoutes` model the user directory in the class
  `UserDirectory`: create, update, delete, login and the newest-first
  listing. Emails stay unique and ids stay ordered.
- `HistorySchema` and `HistoryRoutes` model the history log in the class
  `HistoryStore`: the required-field check and code upper-casing on insert;
  the type whitelist, the `parseInt` based limit clamp to [1, 500] and the
  newest-first ordering on query.
- `Text`, `Codes` and `Wrappers` hold the shared string helpers, the code
  format and `Option`.

Two behaviours are modelled as the code has them:

- `appendTicketDb` (server/routes/tickets-db.ts:90-101) answers
  `added: true` for every known code, even one that is already available. It
  never sends the reason `already_available`. That reason, and the user
  page's branch for it (client/pages/Index.tsx:279), belong to the legacy
  `appendTicket` (server/routes/tickets.ts:88-90). The page posts to that
  legacy route (client/pages/Index.tsx:260, 304), but the server mounts only
  `/api/db/tickets/append` (server/index.ts:66-71).
- Import maps only the exact pool string `"Common"` to Common. `"COMMON"`
  becomes HSV, as does any other string.

## Model

| member | source | states |
|---|---|---|
| Text.Trim | client/pages/AdminDashboard.tsx:58 | `trim` keeps no white space at either end and never lengthens |
| Text.TrimSlice | client/pages/AdminDashboard.tsx:58 | the trimmed string is one slice of the input, and everything cut off before and after it is white space |
| Text.TrimNoop | client/pages/AdminDashboard.tsx:58 | a string without white space at its ends is its own trim |
| Text.TrimIdempotent | server/models/User.ts:5-6 | trimming twice equals trimming once |
| Text.ToUpper | server/routes/tickets-db.ts:43 | `toUpperCase` maps each character and keeps the length |
| Text.ToLower | server/routes/users.ts:15 | `toLowerCase` maps each character and keeps the length |
| Text.LowerKeepsWhitespace | server/routes/users.ts:15 | lower-casing neither makes nor removes white space |
| Text.LowerTrimCommute | server/routes/users.ts:15-18 | lower-case then trim equals trim then lower-case |
| Text.LowerIdempotent | server/routes/users.ts:18 | lower-casing twice equals lower-casing once |
| Text.UpperIdempotent | client/pages/Index.tsx:421 | upper-casing twice equals upper-casing once |
| Text.SplitFields | client/pages/AdminDashboard.tsx:62 | splitting on `,`, `;` or tab gives at least one field, and a line without separators is its own only field |
| Text.SplitFieldsShape | client/pages/AdminDashboard.tsx:62 | there is one field more than there are separators, and no field contains a separator |
| Text.SplitFieldsJoin | client/pages/AdminDashboard.tsx:62 | the fields, rejoined with the separators in their order, give back the line |
| Text.SplitFieldsCons | client/pages/AdminDashboard.tsx:62 | the text before the first separator is the first field, and what follows the separator is split on its own |
| Text.SplitLines | client/pages/AdminDashboard.tsx:57 | splitting on `\r?\n` gives at least one line, and no line holds a line feed |
| Text.SplitLinesPlain | client/pages/AdminDashboard.tsx:57 | text without a line feed is one line, kept whole |
| Text.SplitLinesLF | client/pages/AdminDashboard.tsx:57 | `"\n"` ends a line: the text before it (not ending in `"\r"`) is the first line and the rest is split on its own |
| Text.SplitLinesCRLF | client/pages/AdminDashboard.tsx:57 | `"\r\n"` ends a line, with neither character kept, and the rest is split on its own |
| Text.SplitLinesFrom | client/pages/AdminDashboard.tsx:57 | the splitter from a partial line gives at least one line, none holding a line feed when the partial line holds none |
| Text.SplitLinesFromPlain | client/pages/AdminDashboard.tsx:57 | text without a line feed continues the partial line to its end |
| Text.SplitLinesFromLF | client/pages/AdminDashboard.tsx:57 | a partial line continued by text and `"\n"` is one line, then the rest is split |
| Text.SplitLinesFromCRLF | client/pages/AdminDashboard.tsx:57 | a partial line continued by text and `"\r\n"` is one line, then the rest is split |
| Text.TrimEach | client/pages/AdminDashboard.tsx:58 | trims each line in place |
| Codes.ValidCode | server/routes/tickets-db.ts:11 | no contract: the predicate is `CODE_RE` (and the page's `/^[A-Z0-9]{10}$/`), exactly ten characters from A-Z and 0-9; characterised by Codes.ValidCodeIsPlain, Codes.ValidCodeIsUpper and Codes.UpperCasedValid |
| Codes.ValidCodeIsPlain | client/pages/AdminDashboard.tsx:62-65 | a valid code has no white space and no field separator, so it passes the CSV splitter whole |
| Codes.UpperCasedValid | server/routes/tickets-db.ts:43-45 | under the ASCII-only upper-casing of this model, an upper-cased input matches `^[A-Z0-9]{10}$` exactly when it is ten ASCII letters (either case) or digits |
| Codes.ValidCodeIsUpper | server/routes/tickets-db.ts:11 | upper-casing a valid code leaves it unchanged |
| TicketSchema.CodeSetAppend | server/models/Ticket.ts:8 | appending a ticket adds exactly its code to the set of codes |
| TicketsDb.HttpStatus | server/routes/tickets-db.ts:40-121 | 404 exactly for `no_tickets_available`; every other error is 400 |
| TicketsDb.ImportPool | server/routes/tickets-db.ts:44 | pool is OSV exactly for `"OSV"`, Common exactly for `"Common"`, HSV otherwise |
| TicketsDb.Normalize | server/routes/tickets-db.ts:43-46 | an item survives exactly when its upper-cased code is valid; it then carries that code and the mapped pool |
| TicketsDb.ValidItems | server/routes/tickets-db.ts:41-47 | never more survivors than items, and every survivor's code is valid |
| TicketsDb.ValidItemsMembers | server/routes/tickets-db.ts:42-47 | a pending insert is collected exactly when it is the valid normalisation of some item |
| TicketsDb.ValidItemsStep | server/routes/tickets-db.ts:42-47 | the survivors of a suffix are the head's normalisation followed by the survivors of the rest |
| TicketsDb.CollectValid | server/routes/tickets-db.ts:41-47 | the loop that pushes into `toInsert` yields exactly `ValidItems` |
| TicketsDb.UpsertOne | server/routes/tickets-db.ts:50 | no contract: one `$setOnInsert` upsert, inserting only an unknown code; characterised by TicketsDb.NewCodesStep, TicketsDb.UpsertAll and TicketsDb.UpsertAllKnown |
| TicketsDb.UpsertAll | server/routes/tickets-db.ts:50-52 | upserting only appends: the old tickets are kept as a prefix and the clock advances by the number appended |
| TicketsDb.UpsertAllSpec | server/routes/tickets-db.ts:50-52 | the collection invariant is kept; every appended ticket is available, unassigned, new and from the input; every input code is stored afterwards |
| TicketsDb.UpsertAllCount | server/routes/tickets-db.ts:52-53 | the number inserted equals the number of distinct new codes |
| TicketsDb.NewCodesStep | server/routes/tickets-db.ts:50-52 | one upsert step accounts for exactly its share of the new codes |
| TicketsDb.PendingCodesCons | server/routes/tickets-db.ts:50 | the codes of a pending list are the head's code plus the codes of the rest |
| TicketsDb.UpsertAllKnown | server/routes/tickets-db.ts:50 | upserting only known codes changes nothing (`$setOnInsert` leaves existing tickets alone) |
| TicketsDb.ReimportInsertsNothing | server/routes/tickets-db.ts:36-53 | importing the same items a second time changes nothing, so it reports 0 |
| TicketsDb.DeleteList | server/routes/tickets-db.ts:63 | the delete list is no longer than the input and holds only valid codes |
| TicketsDb.DeleteAvailable | server/routes/tickets-db.ts:64 | a ticket survives exactly when it was present and is not an available ticket with a listed code |
| TicketsDb.DeletedCodesCons | server/routes/tickets-db.ts:64 | the deleted codes of a collection are the head's (when deletable) plus those of the rest |
| TicketsDb.DeleteCount | server/routes/tickets-db.ts:64-65 | the number of tickets removed equals the number of deleted codes |
| TicketsDb.DeletedCodesSpec | server/routes/tickets-db.ts:64 | the deleted codes are exactly the available codes that are listed |
| TicketsDb.DeleteKeepsCollection | server/routes/tickets-db.ts:64 | deletion keeps codes unique, creation order and well-formedness |
| TicketsDb.HeadBeforeRest | server/models/Ticket.ts:8-13 | the oldest ticket differs in code from, and precedes, every survivor of the rest |
| TicketsDb.ValidCollectionTail | server/models/Ticket.ts:8-13 | dropping the oldest ticket keeps the collection invariant |
| TicketsDb.ValidCollectionCons | server/models/Ticket.ts:8-13 | prepending an older, well-formed ticket with a fresh code keeps the invariant |
| TicketsDb.FirstMatch | server/routes/tickets-db.ts:77-81 | the index found matches the filter and nothing before it does; no index means nothing matches |
| TicketsDb.FirstMatchIsOldest | server/routes/tickets-db.ts:112-116 | in creation order, the first match has the smallest `createdAt` among the matches |
| TicketsDb.Claim | server/routes/tickets-db.ts:77-79 | claiming keeps the number of tickets |
| TicketsDb.Release | server/routes/tickets-db.ts:95-97 | releasing keeps the number of tickets |
| TicketsDb.ClaimKeepsCollection | server/routes/tickets-db.ts:77-79 | claiming keeps the collection invariant |
| TicketsDb.ClaimSpec | server/routes/tickets-db.ts:77-83 | claiming removes exactly the claimed code from the available codes; a code that is not available leaves the collection unchanged |
| TicketsDb.ReleaseSpec | server/routes/tickets-db.ts:95-101 | releasing keeps the codes; a known code becomes available whatever its status; an unknown code changes nothing |
| TicketsDb.ReleaseKeepsCollection | server/routes/tickets-db.ts:95-97 | releasing keeps the collection invariant |
| TicketsDb.ClaimThenRelease | server/routes/tickets-db.ts:77-79 | claiming an available code and then returning it restores the collection exactly |
| TicketsDb.ClaimAtFirstMatch | server/routes/tickets-db.ts:77-79 | with unique codes, the claim is a single-position update of the matching ticket |
| TicketsDb.ReleaseAtFirstMatch | server/routes/tickets-db.ts:95-97 | with unique codes, the release is a single-position update of the matching ticket |
| TicketsDb.PreferredPools | server/routes/tickets-db.ts:110 | the preference is Common first, then OSV exactly for user type `"OSV"`, otherwise HSV |
| TicketsDb.NextIndex | server/routes/tickets-db.ts:111-120 | the ticket chosen is available and in a preferred pool |
| TicketsDb.NextIndexSpec | server/routes/tickets-db.ts:111-121 | nothing is chosen exactly when every preferred pool is empty; otherwise the choice is from the first non-empty pool and is its oldest available ticket |
| TicketsDb.NextNeverRepeats | server/routes/tickets-db.ts:112-116 | after a ticket is handed out, the next call never hands out the same code |
| TicketsDb.AvailableOf | server/routes/tickets-db.ts:17 | the listed tickets are exactly the available ones |
| TicketsDb.InPool | server/routes/tickets-db.ts:22-29 | the pool filter keeps exactly the tickets of that pool |
| TicketsDb.CodesOf | server/routes/tickets-db.ts:20 | the code projection keeps position and length |
| TicketsDb.AvailableCodesListed | server/routes/tickets-db.ts:17-20 | a code is listed exactly when it is an available code |
| TicketsDb.ListedIsAvailable | server/routes/tickets-db.ts:17-20 | every listed code is available |
| TicketsDb.AvailableIsListed | server/routes/tickets-db.ts:17-20 | every available code is listed |
| TicketsDb.PoolsPartition | server/routes/tickets-db.ts:22-24 | the three pool filters split a list without loss or overlap in count |
| TicketsDb.AvailableCountIsCodes | server/routes/tickets-db.ts:125-127 | with unique codes, the available count equals the number of available codes |
| TicketsDb.ListAvailable | server/routes/tickets-db.ts:16-32 | counts add up to the list length; each pool's count is the number of available tickets in that pool and the length of its list; each pool's list holds exactly the codes of that pool's available tickets; the full list holds exactly the available codes and is as long as the available count |
| TicketsDb.PoolCodesListed | server/routes/tickets-db.ts:26-30 | a pool's code list holds exactly the codes of the available tickets of that pool |
| TicketsDb.CodesOfMember | server/routes/tickets-db.ts:20 | a code is in the mapped list exactly when some ticket of the list carries it |
| TicketsDb.AvailableCodeSetCons | server/routes/tickets-db.ts:125-127 | the available codes of a collection are its first ticket's code, if available, plus those of the rest |
| TicketsDb.TicketStore.constructor | server/models/Ticket.ts:8-13 | the collection starts empty and valid |
| TicketsDb.TicketStore.FindOne | server/routes/tickets-db.ts:77-78 | the scan returns the first match in creation order |
| TicketsDb.TicketStore.Import | server/routes/tickets-db.ts:38-54 | `no_items` and `no_valid_items` change nothing; otherwise the collection is the upsert of the valid items and the reply counts the distinct new codes |
| TicketsDb.TicketStore.Delete | server/routes/tickets-db.ts:60-66 | `no_codes` changes nothing; otherwise exactly the available listed tickets go and the reply counts them |
| TicketsDb.TicketStore.Consume | server/routes/tickets-db.ts:72-84 | an invalid code changes nothing; otherwise the code is claimed for `userId` or null, and the reply says whether it was available and gives the new count |
| TicketsDb.TicketStore.Append | server/routes/tickets-db.ts:90-102 | an invalid code changes nothing; a known code becomes available with `added: true`; an unknown code gives `unknown_code` |
| TicketsDb.TicketStore.Next | server/routes/tickets-db.ts:108-122 | 404 with no change when no preferred pool has a ticket; otherwise the chosen ticket alone becomes used and its code is returned with the new count |
| TicketsDb.FirstMatchUnique | server/routes/tickets-db.ts:77-78 | the first match is the index before which nothing matches |
| RegionTickets.SeedCodesValid | server/routes/tickets.ts:5-7 | every seed code is a valid code |
| RegionTickets.SeedsDisjoint | server/routes/tickets.ts:5-7 | each seed list is duplicate-free and the three lists are pairwise disjoint |
| RegionTickets.SeedRegionMap | server/routes/tickets.ts:10-11 | no contract: the `regionByCode` map; RegionTickets.SeedMapRegions proves it maps exactly the seeded codes to their regions |
| RegionTickets.SeedMapRegions | server/routes/tickets.ts:9-11 | `regionByCode` holds exactly the seeds and maps each to its own region |
| RegionTickets.WithPool | server/routes/tickets.ts:14-18 | replacing one region's set leaves the other two unchanged |
| RegionTickets.SetDelete | server/routes/tickets.ts:76 | `Set.delete` removes exactly that element |
| RegionTickets.SetDeleteDistinct | server/routes/tickets.ts:76 | deleting keeps a set duplicate-free and shrinks it by one exactly when the element was present |
| RegionTickets.RegionHolding | server/routes/tickets.ts:63-70 | the region found holds the code; none is found exactly when no region holds it |
| RegionTickets.AfterConsume | server/routes/tickets.ts:76-77 | no contract: the consume step, the code leaves its region and its region is recorded; characterised by RegionTickets.ConsumeSpec and RegionTickets.ConsumeAppendRoundTrip |
| RegionTickets.AfterAppend | server/routes/tickets.ts:97-98 | no contract: the append step, the code joins the region and its record is forgotten; characterised by RegionTickets.AppendSpec and RegionTickets.ConsumeAppendRoundTrip |
| RegionTickets.ConsumeSpec | server/routes/tickets.ts:76-77 | consuming keeps the state valid, removes the code from every set, lowers the total by one and records the region |
| RegionTickets.AppendSpec | server/routes/tickets.ts:97-98 | returning a code keeps the state valid, puts it in its region, raises the total by one and forgets its recorded region |
| RegionTickets.ConsumeAppendRoundTrip | server/routes/tickets.ts:76-77 | after a consume, the return finds the same region; consume then append restores every region's contents and the used-region map |
| RegionTickets.ParseRegion | server/routes/tickets.ts:24 | a region is recognised exactly for `"NA"`, `"EU"` and `"FE"` |
| RegionTickets.RegionTicketService.constructor | server/routes/tickets.ts:14-21 | the sets start as the seeds and the used-region map starts empty |
| RegionTickets.RegionTicketService.ListAvailable | server/routes/tickets.ts:102-110 | the listing has the total count and holds exactly the available codes |
| RegionTickets.RegionTicketService.GetNextTicket | server/routes/tickets.ts:26-55 | bad region or type gives 400; parsed data serves that type's list and never the sets; parse failure serves the region's first code; an empty list gives 404; nothing changes |
| RegionTickets.RegionTicketService.ConsumeTicket | server/routes/tickets.ts:57-82 | an invalid code changes nothing; a code in no set gives `not_in_available`; otherwise the state is the consume step of the first region holding it |
| RegionTickets.RegionTicketService.AppendTicket | server/routes/tickets.ts:84-100 | an invalid code changes nothing; an available code gives `already_available`; no known region gives `unknown_code`; otherwise the state is the append step into the recorded or seed region |
| AdminDashboard.CsvLines | client/pages/AdminDashboard.tsx:56-59 | no contract: the split, trimmed, non-blank lines; characterised by AdminDashboard.CsvLinesCons, AdminDashboard.NonBlank and Text.SplitLines |
| AdminDashboard.Fields | client/pages/AdminDashboard.tsx:62 | a line always has at least one field, so `parts[0]` is defined; AdminDashboard.FieldsTwo gives the fields of `code<sep>type` |
| AdminDashboard.RowOf | client/pages/AdminDashboard.tsx:62-67 | a row is only ever produced for a valid code; AdminDashboard.RowOfOneField, RowOfTwoFields and RowOfExtraFields give the row exactly |
| AdminDashboard.NonBlank | client/pages/AdminDashboard.tsx:59 | keeps exactly the non-empty lines |
| AdminDashboard.NonBlankAppend | client/pages/AdminDashboard.tsx:59 | the filter keeps order: filtering a concatenation concatenates the filtered parts |
| AdminDashboard.FieldOr | client/pages/AdminDashboard.tsx:63-64 | a present non-empty field is used, otherwise the default |
| AdminDashboard.RowOfOneField | client/pages/AdminDashboard.tsx:62-67 | a line without separators gives a row exactly when its trimmed, upper-cased text is a code, and the row's type is HSV |
| AdminDashboard.RowOfTwoFields | client/pages/AdminDashboard.tsx:62-67 | a line `code<sep>type` gives a row exactly when the trimmed, upper-cased first field is a code; the type is OSV exactly when the trimmed second field is `osv` in any case, HSV otherwise, an empty field included |
| AdminDashboard.FieldsTwo | client/pages/AdminDashboard.tsx:62 | a line `code<sep>type` has exactly the two trimmed fields |
| AdminDashboard.RowOfSameFields | client/pages/AdminDashboard.tsx:63-67 | two lines whose first two fields agree give the same row |
| AdminDashboard.RowOfExtraFields | client/pages/AdminDashboard.tsx:62-67 | fields after the second do not change the row |
| AdminDashboard.UpperHsv | client/pages/AdminDashboard.tsx:64 | the default type field reads as HSV, and an empty field never as OSV |
| AdminDashboard.RowExampleOsv | client/pages/AdminDashboard.tsx:57-67 | the line `abcdefghij,osv` gives the code `ABCDEFGHIJ` with type OSV |
| AdminDashboard.LineRows | client/pages/AdminDashboard.tsx:61-68 | one line gives at most one row |
| AdminDashboard.RowsOf | client/pages/AdminDashboard.tsx:61-68 | no more rows than lines |
| AdminDashboard.RowsOfValid | client/pages/AdminDashboard.tsx:65 | every emitted code is valid |
| AdminDashboard.RowsOfAppend | client/pages/AdminDashboard.tsx:61-68 | parsing keeps line order: the rows of two blocks are the rows of each in turn |
| AdminDashboard.RowsOfSingle | client/pages/AdminDashboard.tsx:61-68 | the rows of one line are that line's rows |
| AdminDashboard.RowsOfSnoc | client/pages/AdminDashboard.tsx:61-68 | the rows of a prefix one line longer are the shorter prefix's rows followed by that line's |
| AdminDashboard.ParseCsv | client/pages/AdminDashboard.tsx:55-70 | yields exactly the rows of the trimmed non-blank lines, in order |
| AdminDashboard.ParseLines | client/pages/AdminDashboard.tsx:61-68 | the loop that pushes into `out` yields exactly the rows of its lines, in order |
| AdminDashboard.ParsedRowsCons | client/pages/AdminDashboard.tsx:57-69 | when the text splits into a first line and the rest, its rows are the first line's row, if any, then the rows of the rest |
| AdminDashboard.CsvLinesCons | client/pages/AdminDashboard.tsx:57-59 | when the text splits into a first line and the rest, its CSV lines are the first line trimmed, unless blank, then the rest's |
| AdminDashboard.ParsedRowsLF | client/pages/AdminDashboard.tsx:57-69 | a line ended by `"\n"` gives its trimmed line's row, then the rest is parsed |
| AdminDashboard.ParsedRowsCRLF | client/pages/AdminDashboard.tsx:57-69 | a line ended by `"\r\n"` gives its trimmed line's row, then the rest is parsed |
| AdminDashboard.ParsedRowsLast | client/pages/AdminDashboard.tsx:57-69 | text without a line feed gives the row of its trimmed text, or nothing |
| AdminDashboard.PlainCodeRow | client/pages/AdminDashboard.tsx:62-66 | a line that is a bare valid code parses as that code with type HSV |
| AdminDashboard.ManualRows | client/pages/AdminDashboard.tsx:201-205 | each manual code, in order, with the chosen type |
| AdminDashboard.ManualLineParsed | client/pages/AdminDashboard.tsx:201-205 | a line accepted by the manual filter is non-blank once trimmed and parses as that code with type HSV |
| AdminDashboard.ManualCodesParsedLines | client/pages/AdminDashboard.tsx:196-205 | every manual code is also parsed from its line, with type HSV |
| AdminDashboard.ManualRowsAreParsed | client/pages/AdminDashboard.tsx:196-206 | every manual row's code appears among the parsed rows with type HSV |
| AdminDashboard.TotalTickets | client/pages/AdminDashboard.tsx:116-118 | the total is the sum of the four list lengths |
| AdminDashboard.InsertRow | client/pages/AdminDashboard.tsx:213-223 | a known code changes nothing; a new code is appended to the available list of its row's type, and the other type's available list and both used lists stay |
| AdminDashboard.InsertRows | client/pages/AdminDashboard.tsx:213-224 | the used lists never change |
| AdminDashboard.FirstWith | client/pages/AdminDashboard.tsx:213-224 | finds the first row carrying a code, or reports that none does |
| AdminDashboard.InsertRowsPlacement | client/pages/AdminDashboard.tsx:213-224 | afterwards a code is available under a type exactly when it already was, or it was unknown and the first row carrying it has that type |
| AdminDashboard.InsertRowsTotal | client/pages/AdminDashboard.tsx:213-224 | the available total grows by `added` |
| AdminDashboard.NewCodesStep | client/pages/AdminDashboard.tsx:213-224 | one more input code adds one new code exactly when it was not known |
| AdminDashboard.KnownCodesInsert | client/pages/AdminDashboard.tsx:215-222 | one insert adds exactly its code; a new code adds one available code; a known code changes nothing |
| AdminDashboard.RowCodesCons | client/pages/AdminDashboard.tsx:213 | the codes of a row list are the head's code plus the rest's |
| AdminDashboard.InsertRowsKnown | client/pages/AdminDashboard.tsx:213-224 | afterwards the known codes are the old ones plus the input's, and the available lists only grow |
| AdminDashboard.InsertRowsCount | client/pages/AdminDashboard.tsx:213-224 | `added` is the growth of the available total and equals the number of distinct input codes not known before |
| AdminDashboard.InsertKnownRows | client/pages/AdminDashboard.tsx:215-220 | inserting only known codes changes nothing and adds 0 |
| AdminDashboard.InsertRowsAppend | client/pages/AdminDashboard.tsx:213-224 | inserting two blocks equals inserting one after the other, and the counts add |
| AdminDashboard.InsertRowsIdempotent | client/pages/AdminDashboard.tsx:213-224 | repeating an insert changes nothing and adds 0 |
| AdminDashboard.ManualTypeIgnored | client/pages/AdminDashboard.tsx:196-224 | adding the manual rows after the parsed ones changes neither the store nor the count, so the chosen type never decides a pool |
| AdminDashboard.InsertRowsWellFormed | client/pages/AdminDashboard.tsx:213-224 | the four lists stay jointly duplicate-free |
| AdminDashboard.IndexOf | client/pages/AdminDashboard.tsx:242-247 | `indexOf` gives -1 exactly for an absent code, else the first position holding it |
| AdminDashboard.RemoveAt | client/pages/AdminDashboard.tsx:244 | `splice(i, 1)` shortens the list by one |
| AdminDashboard.DeleteOne | client/pages/AdminDashboard.tsx:242-251 | a delete step never touches the used lists |
| AdminDashboard.DeleteCodes | client/pages/AdminDashboard.tsx:241-252 | the delete loop never touches the used lists |
| AdminDashboard.RemoveFirst | client/pages/AdminDashboard.tsx:242-250 | `indexOf` then `splice(i, 1)`: a present code shortens the list by one, and an absent code leaves it unchanged |
| AdminDashboard.RemoveFirstDistinct | client/pages/AdminDashboard.tsx:242-245 | in a duplicate-free list, removing the first occurrence removes exactly that code and keeps the list duplicate-free |
| AdminDashboard.DeleteCodesTotal | client/pages/AdminDashboard.tsx:241-252 | `removed` is exactly the drop in the available total |
| AdminDashboard.DeleteCodesSpec | client/pages/AdminDashboard.tsx:241-252 | on duplicate-free lists, each available list afterwards holds exactly its old codes that were not listed |
| AdminDashboard.PrependUnique | client/pages/AdminDashboard.tsx:142 | prepending a user whose email key is new keeps the keys unique |
| AdminDashboard.CreateUserOutcome | client/pages/AdminDashboard.tsx:122-142 | rejected exactly when a trimmed field is blank, or else exactly when the email matches an existing one under trim and lower-casing; otherwise the new user holds the trimmed fields, the chosen type and 0 assigned |
| AdminDashboard.CreateUserKeepsEmailsUnique | client/pages/AdminDashboard.tsx:130-142 | a created user keeps the email keys of the list unique |
| AdminDashboard.Dashboard.constructor | client/pages/AdminDashboard.tsx:77-78 | the dashboard starts from the loaded users and tickets |
| AdminDashboard.Dashboard.InsertAll | client/pages/AdminDashboard.tsx:211-224 | the insert loop leaves the store as `InsertRows` and its counter as `AddedCount` |
| AdminDashboard.Dashboard.AddTickets | client/pages/AdminDashboard.tsx:195-228 | text with no parsed row gives "no valid codes" and empty input gives "nothing entered", both with no change; otherwise the parsed then manual rows are inserted and counted |
| AdminDashboard.IsCsvName | client/pages/AdminDashboard.tsx:260 | no contract: `/\.csv$/i`, the name ends in ".csv" in any letter case; its effect is stated by AdminDashboard.Dashboard.CsvUpload |
| AdminDashboard.Dashboard.CsvUpload | client/pages/AdminDashboard.tsx:258-285 | a non-CSV name or a file with no valid rows changes nothing; otherwise the parsed rows are inserted and counted |
| AdminDashboard.Dashboard.DeleteTickets | client/pages/AdminDashboard.tsx:230-256 | an empty valid list changes nothing; otherwise the store is the delete of the valid codes and the count is the removals |
| AdminDashboard.Dashboard.CreateUser | client/pages/AdminDashboard.tsx:122-148 | the outcome is `CreateUserOutcome`; a created user is prepended; tickets never change |
| IndexPage.OrdinalSuffix | client/pages/Index.tsx:71-78 | "st", "nd" and "rd" exactly for last digit 1, 2 and 3 outside 11-13 modulo 100; "th" otherwise |
| IndexPage.LastDigitOfLastTwo | client/pages/Index.tsx:72-73 | the last digit of the last two digits is the last digit |
| IndexPage.DaySuffixes | client/pages/Index.tsx:71-79 | days 1 to 31 read 1st, 2nd, 3rd, 4th … 11th, 12th, 13th … 21st, 22nd, 23rd … 31st |
| IndexPage.SuffixPeriodic | client/pages/Index.tsx:71-78 | the suffix depends only on the number modulo 100 |
| IndexPage.DetectRegion | client/pages/Index.tsx:82-95 | NA, EU and FE exactly for the NA, EU and Asia country sets after trim and lower-case; empty input gives nothing; no region exactly when no label; FE exactly with the Asia label |
| IndexPage.DetectRegionNormalised | client/pages/Index.tsx:86 | the lookup ignores case and surrounding white space |
| IndexPage.FieldValid | client/pages/Index.tsx:164-171 | with the field upper-cased on every change (ASCII-only in this model), it is valid exactly when ten ASCII letters or digits were typed |
| IndexPage.AcceptedFieldPassesServer | client/pages/Index.tsx:421 | a field the page accepts is still valid and unchanged after the server's own upper-casing |
| UserSchema.Public | server/routes/users.ts:8 | the reply holds id, team name, email and type, and no hash |
| UserSchema.TypeOf | server/routes/users.ts:18 | OSV exactly for the string `"OSV"`, HSV otherwise |
| UserSchema.LookupFindsStored | server/routes/users.ts:15-18 | the lookup key (lower-case, then trim) equals the stored form (trim, then lower-case) |
| UserSchema.StoredEmail | server/routes/users.ts:18 | no contract: the stored form of an email, trimmed then lower-cased; characterised by UserSchema.LookupFindsStored and UserSchema.StoredEmailStable |
| UserSchema.LookupKey | server/routes/users.ts:15 | no contract: the duplicate-check key, lower-cased then trimmed; UserSchema.LookupFindsStored proves it equals the stored form |
| UserSchema.StoredEmailStable | server/models/User.ts:6 | normalising a stored email again changes nothing |
| UserSchema.ValidUsersHaveUniqueIds | server/models/User.ts:3-12 | a valid directory has unique ids |
| UsersRoutes.HttpStatus | server/routes/users.ts:14-48 | 400 exactly for `missing_fields`, 404 exactly for `not_found`, 409 exactly for `email_exists`, 401 exactly for `invalid_credentials`, no reply exactly for the thrown store errors |
| UsersRoutes.EmailOwner | server/routes/users.ts:15 | the user found has that email; none is found exactly when no user has it |
| UsersRoutes.IdOwner | server/routes/users.ts:30 | the user found is the first with that id; none is found exactly when no user has it |
| UsersRoutes.CreateOutcome | server/routes/users.ts:12-20 | `missing_fields` exactly for a falsy field; `email_exists` exactly when the normalised email is stored; a schema rejection exactly when the fields are present, the email is free and the trimmed name or normalised email is empty; no other failure; otherwise a record with trimmed name, normalised email, hashed password and mapped type, clashing with no one |
| UsersRoutes.CreateSucceeds | server/routes/users.ts:12-19 | a request with every field present, a free email and a non-blank trimmed name and normalised email is created as the record with those normalised fields |
| UsersRoutes.CreateKeepsValid | server/models/User.ts:5-8 | creation keeps emails unique and ids ordered |
| UsersRoutes.CreateTwiceFails | server/routes/users.ts:15-16 | creating the same body again gives `email_exists` |
| UsersRoutes.Patch | server/routes/users.ts:25-29 | only supplied fields change and the id never does; a supplied name is trimmed, a supplied email normalised, a supplied password hashed and a string type mapped |
| UsersRoutes.PatchIdentityAndIdempotent | server/routes/users.ts:25-29 | an empty body changes nothing, and applying the same body twice equals applying it once |
| UsersRoutes.UpdateOutcome | server/routes/users.ts:22-33 | `not_found` exactly when no user has the id; a duplicate-key failure exactly when the patched email of the user found by id belongs to another user; on success only that user changes, by the patch |
| UsersRoutes.UpdateKeepsValid | server/models/User.ts:6 | a successful update keeps emails unique and ids ordered |
| UsersRoutes.DeleteById | server/routes/users.ts:37 | exactly the users with other ids remain |
| UsersRoutes.DeleteByIdCount | server/routes/users.ts:37-38 | an unknown id changes nothing; a known id removes exactly one user |
| UsersRoutes.DeleteKeepsValid | server/routes/users.ts:37 | deletion keeps the directory valid |
| UsersRoutes.HeadBeforeKept | server/models/User.ts:5-11 | the oldest user differs in email from, and has a smaller id than, every survivor of the rest |
| UsersRoutes.ValidUsersCons | server/models/User.ts:5-11 | prepending an older user with a fresh email keeps the directory valid |
| UsersRoutes.LoginOutcome | server/routes/users.ts:42-50 | `missing_fields` exactly for a falsy field; any other failure is `invalid_credentials`; success returns the public form of a user with that normalised email and a matching hash |
| UsersRoutes.LoginWithStoredPassword | server/routes/users.ts:45-49 | the right email and password log in as that user |
| UsersRoutes.CreatedUserCanLogIn | server/routes/users.ts:15-49 | a freshly created user can log in with the same email and password |
| UsersRoutes.ListUsers | server/routes/users.ts:6-8 | the listing is the users in reverse creation order, without hashes |
| UsersRoutes.ListNewestFirst | server/routes/users.ts:6 | in a valid directory the listing's ids strictly decrease |
| UsersRoutes.UserDirectory.constructor | server/models/User.ts:3-12 | the directory starts empty and valid |
| UsersRoutes.UserDirectory.FindByEmail | server/routes/users.ts:15 | the scan returns the user holding exactly that email |
| UsersRoutes.UserDirectory.CreateUser | server/routes/users.ts:12-20 | a failure changes nothing; a success appends the record, advances the id and returns its public form |
| UsersRoutes.UserDirectory.UpdateUser | server/routes/users.ts:22-33 | the update built field by field is the patch; a failure changes nothing; a success stores the patched user and returns it |
| UsersRoutes.UserDirectory.DeleteUser | server/routes/users.ts:35-40 | an unknown id gives `not_found` with no change; otherwise exactly that user goes |
| UsersRoutes.UserDirectory.AdminLogin | server/routes/users.ts:42-50 | the reply is the login outcome against the stored users |
| UsersRoutes.EmailOwnerFirst | server/routes/users.ts:15 | the lookup finds the first user holding the email |
| HistorySchema.HistoryTypeOf | server/models/History.ts:5 | the enum accepts exactly the three lower-case names |
| HistorySchema.HistoryTypeName | server/models/History.ts:5 | each kind's name is accepted as that kind |
| HistorySchema.HistoryTypeRoundTrip | server/models/History.ts:5 | an accepted string is the name of the kind it yields |
| HistoryRoutes.Optional | server/routes/history.ts:19-24 | an optional field is kept exactly when it is truthy |
| HistoryRoutes.AddOutcomeOf | server/routes/history.ts:13-31 | `missing_fields` exactly for a falsy type or code; `server_error` exactly for a kind outside the enum or an unparsable date; otherwise a well-formed entry with the given id, that kind, the upper-cased code, the given date or now, and each optional field kept exactly when it is truthy |
| HistoryRoutes.AddedCodeIsUpper | server/routes/history.ts:21 | a stored code is already upper-case |
| HistoryRoutes.BuildFilter | server/routes/history.ts:40-42 | the type filter is set exactly for a whitelisted name, and `userId` filters exactly when truthy |
| HistoryRoutes.UnknownKindIgnored | server/routes/history.ts:41 | a type outside the whitelist gives the same filter as no type |
| HistoryRoutes.Select | server/routes/history.ts:44 | the query keeps exactly the matching entries, each as many times as it is stored |
| HistoryRoutes.DigitPrefix | server/routes/history.ts:43 | the leading run of digits, stopping at the first non-digit |
| HistoryRoutes.SkipSpaces | server/routes/history.ts:43 | the leading white space `parseInt` skips |
| HistoryRoutes.ParseDigits | server/routes/history.ts:43 | no number exactly when no digit leads |
| HistoryRoutes.Decimal | server/routes/history.ts:43 | a decimal spelling is a non-empty run of digits |
| HistoryRoutes.DecimalValue | server/routes/history.ts:43 | the digits of a decimal spelling read back as the number |
| HistoryRoutes.DigitPrefixAppend | server/routes/history.ts:43 | the digit run of digits followed by a non-digit is those digits |
| HistoryRoutes.NoLeadingSpace | server/routes/history.ts:43 | a string starting with a digit or sign has no white space to skip |
| HistoryRoutes.ParseDigitsRun | server/routes/history.ts:43 | a digit run followed by a non-digit reads as its value |
| HistoryRoutes.ParseInt | server/routes/history.ts:43 | `parseInt(…, 10)`: a negative result needs a leading minus after the white space; HistoryRoutes.ParseIntUnsigned, ParseIntMinus, ParseIntNatural and ParseIntNegative give its value |
| HistoryRoutes.ParseIntUnsigned | server/routes/history.ts:43 | `parseInt` of a digit-led string is its leading digits |
| HistoryRoutes.ParseIntMinus | server/routes/history.ts:43 | `parseInt` of a minus and a digit-led string is the negated value |
| HistoryRoutes.ParseIntNatural | server/routes/history.ts:43 | `parseInt` reads back a decimal number whatever non-digit text follows |
| HistoryRoutes.ParseIntNegative | server/routes/history.ts:43 | `parseInt` reads back a negative decimal number whatever non-digit text follows |
| HistoryRoutes.ParseDefaultLimit | server/routes/history.ts:43 | the default string `"100"` reads as 100 |
| HistoryRoutes.EffectiveLimit | server/routes/history.ts:43 | the limit lies in [1, 500]; absent, non-numeric or zero gives 100; negative gives 1; above 500 gives 500; otherwise the number itself |
| HistoryRoutes.LimitOfNatural | server/routes/history.ts:43 | a decimal limit n gives 100 for 0, 500 above 500, n otherwise |
| HistoryRoutes.LimitOfNegative | server/routes/history.ts:43 | a negative decimal limit gives 1 |
| HistoryRoutes.InsertByDate | server/routes/history.ts:44 | inserting keeps every entry and adds one |
| HistoryRoutes.InsertedFrom | server/routes/history.ts:44 | every entry after an insert was inserted or already present |
| HistoryRoutes.InsertKeepsOrder | server/routes/history.ts:44 | inserting by date keeps a newest-first list newest-first |
| HistoryRoutes.SortNewestFirst | server/routes/history.ts:44 | the sort is a permutation |
| HistoryRoutes.SortIsNewestFirst | server/routes/history.ts:44 | the sort orders by date, newest first |
| HistoryRoutes.Take | server/routes/history.ts:44 | `limit` keeps a prefix of length min(limit, size) |
| HistoryRoutes.ListHistory | server/routes/history.ts:41-44 | no contract: the find, sort and limit pipeline; characterised by HistoryRoutes.ListHistorySpec and HistoryRoutes.ListHistoryNewest |
| HistoryRoutes.ListHistorySpec | server/routes/history.ts:37-49 | the result has min(limit, matches) entries, newest first, each a stored entry matching the filter |
| HistoryRoutes.ListedAreMatching | server/routes/history.ts:44-45 | every entry of a sorted, limited listing is one of the matching entries |
| HistoryRoutes.ListHistoryNewest | server/routes/history.ts:44 | the result is a sub-multiset of the matches, and no omitted match is newer than a returned one |
| HistoryRoutes.PrefixNewer | server/routes/history.ts:44 | in a newest-first list, the first k entries are at least as new as the rest |
| HistoryRoutes.PrefixRest | server/routes/history.ts:44 | a list splits into a prefix and the rest as multisets |
| HistoryRoutes.HistoryStore.constructor | server/models/History.ts:3-14 | the log starts empty and valid |
| HistoryRoutes.HistoryStore.AddHistory | server/routes/history.ts:13-31 | a failure reports its error and changes nothing; a success appends the new entry and returns its id |
| HistoryRoutes.HistoryStore.List | server/routes/history.ts:37-45 | no contract: `GET /api/history` is HistoryRoutes.ListHistory over the stored entries, so HistoryRoutes.ListHistorySpec and ListHistoryNewest describe its reply |

## Left out

- Text.ToUpper / Text.ToLower / Codes.UpperCasedValid / IndexPage.FieldValid: JavaScript's case mapping is modelled for ASCII letters only, and other characters are left unchanged. Unicode case mapping is not captured: JavaScript upper-cases `"ıııııııııı"` to ten `I`s, which the page and the server accept as a code, while the model rejects it.
- Request bodies (UsersRoutes.UserBody, HistoryRoutes.HistoryBody, TicketsDb.ImportItem and the query strings) hold each field as an optional string. JavaScript's `String()` coercion of other JSON values is not captured. In particular a truthy value that coerces to `""`, such as `[]`, is not represented: `createUser` with `teamName: []` passes the missing-fields check and is then rejected by the schema, `adminLogin` with `email: []` answers 401 `invalid_credentials`, and `addHistory` with `code: []` fails the `required` validator and answers 500 `server_error`, while the model can only treat such a field as absent or as a string.
- Text.Trim uses the ECMAScript white-space and line-terminator set, written out as characters.
- TicketsDb.TicketStore.Import: the `bulkWrite` is modelled as sequential upserts in item order, and its swallowed errors (`.catch(() => null)`, which reports 0) are not modelled.
- Concurrency: each route is one sequential step. The atomicity of `findOneAndUpdate` and `bulkWrite` under concurrent requests is not modelled.
- Ticket `createdAt` comes from a counter that strictly increases, so two tickets never tie. The database's tie order is not modelled.
- Document ids are natural numbers handed out in creation order. ObjectId generation and the cast error on a malformed id are not modelled.
- UsersRoutes: bcrypt is a fixed, deterministic hash function given to the directory, and `bcrypt.compare` is equality with the stored hash. Salting is not modelled.
- UsersRoutes.UpdateOutcome / UsersRoutes.HttpStatus: a duplicate email on update, or a schema rejection, makes the route throw. The model returns an error with no HTTP status and leaves the directory unchanged.
- UsersRoutes: the `createdAt` sort is id order (ids increase with creation). The users' timestamps are not kept.
- HistoryRoutes: `new Date(date)` parsing and the current time are inputs (`DateField`, `now`). Date parsing itself is not modelled.
- HistoryRoutes: `userId` is kept as a string. Its cast to an ObjectId, and the server error on a malformed id, are not modelled.
- HistoryRoutes.EffectiveLimit: a `limit` given as an array (`?limit=1&limit=2`) is not modelled. The limit is an optional string.
- HistoryRoutes.SortNewestFirst: the order among entries with the same date is whatever the insertion sort gives. The database's tie order is not modelled.
- RegionTickets: the parsed `TICKETS_DATA` value, or its parse failure, is an input. Reading the environment and `JSON.parse` are not modelled. The legacy routes are not mounted by the server, and the model treats them as a standalone service.
- RegionTickets.RegionTicketService.ConsumeTicket: the `userType` in the body is only logged, so it is left out.
- AdminDashboard: React state, `localStorage` persistence, toasts, the file picker and `file.text()` are not modelled. The handlers take the entered text, and the file's name and content, as inputs.
- AdminDashboard.Dashboard: the handlers shallow-copy the store and then push into or splice the arrays they share with the previous state. The model builds a new store value, so that aliasing is not captured.
- AdminDashboard: the edit, update and delete user handlers (`handleEditUser`, `handleUpdateUser`, `handleDeleteUser`) are not modelled, because they only edit the displayed user list. `crypto.randomUUID()` is an input id.
- IndexPage: only the pure helpers are modelled. The page's rendering, fetch calls, clipboard and history display are not.
