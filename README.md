# Identity reconciliation, modelled in Dafny

The service answers `POST /identify` with a request that carries an email,
a phone number or both. `identifyContact` does the following:

- It finds the stored contacts that share either identifier (the *direct
  matches*).
- It maps each match to the id of its chain (`linkedId || id`).
- It gathers every contact of those chains, oldest first (the *closure*).
- If nothing matched, it inserts one new primary contact and reports that
  contact alone.
- Otherwise it decides whether a write is needed. That is the case when a
  related contact other than the oldest is marked primary, or when the
  request brings an email or phone number the group does not yet carry.
- When a write is needed, it calls the `update_and_merge_contacts`
  transaction and reports what that transaction returns. Otherwise it
  reports the closure as it stands.

`buildResponse` turns a list of contacts into the consolidated view:

- the primary's id;
- the emails and the phone numbers, each without duplicates, with the
  primary's own value first;
- the ids of the other contacts, without duplicates, in scan order.

The model has these modules:

- `Wrappers` defines `Option` and `Result`.
- `Types` holds the records of `src/types.ts` and JavaScript truthiness.
  `createdAt` becomes an `int`, because it is only ever compared.
- `Collections` holds the insertion-ordered JavaScript `Set` as a
  de-duplicating left fold, plus the row selection of a query's filter
  clause.
- `Matcher` holds the two queries as filters over the table sequence, and
  `.order('createdAt')` as a stable insertion sort.
- `MergePolicy` holds the `needsUpdate` loop and the "has new" tests.
- `Consolidator` holds `buildResponse` as a loop over the contacts,
  proved against a functional specification.
- `ContactService` holds the table as a class (`ContactStore`) whose
  methods insert a row or call the merge transaction.
- `Scenarios` holds worked requests against small tables.

The merge transaction's body is not part of this model. It is a parameter:
any function from the table and its id counter to a new table and the
contacts it returns, or to a failure. The one thing assumed of it is an
assumption about the table's schema, which is not part of this model
(`CommitsValidTable`): after any commit, ids stay distinct and positive,
the id counter never goes back, and links keep pointing at stored
contacts.

## Model

| member | source | states |
|---|---|---|
| Types.Truthy | src/services/contactService.ts:109-114 | (definition) JavaScript truthiness of an optional string, as `if (x)` and `email && …` (lines 56-57) test it: present and not empty |
| Types.HasIdentifier | src/index.ts:16 | (definition) the `/identify` guard: the request's email or its phone number is truthy; the precondition of `IdentifyContact` |
| Collections.FirstIndex | src/services/contactService.ts:104-105 | the position of the first insertion of a value: below the length exactly when the value occurs, that position holds it, and no earlier one does |
| Collections.SetAdd | src/services/contactService.ts:109-116 | (definition) `set.add(x)`: the set read back gains `x` at its end unless it already holds it |
| Collections.Dedup | src/services/contactService.ts:104-124 | (definition) the values `Array.from` or a spread yields from a `Set` filled front to back; characterized by `DedupSpec` and `DedupUnique` |
| Collections.DedupSnoc | src/services/contactService.ts:113-114 | one more `set.add` appends the value exactly when it is not yet in the set |
| Collections.DedupSpec | src/services/contactService.ts:104-105 | reading a `Set` back yields no value twice, exactly the inserted values, in order of first insertion |
| Collections.DedupHead | src/services/contactService.ts:108-110 | the first value inserted into a `Set` is the first one read back |
| Collections.DedupUnique | src/services/contactService.ts:122-124 | any sequence with the three properties of `DedupSpec` is the one the `Set` yields, so those properties define `Array.from(set)` |
| Collections.OrderedByFirstIndexUnique | src/services/contactService.ts:122-124 | two duplicate-free sequences with the same elements, both in first-insertion order, are equal |
| Collections.Filter | src/services/contactService.ts:39-43 | the filtered rows are exactly the rows satisfying the condition, each as often as it occurs in the table |
| Matcher.InsertByCreatedAt | src/services/contactService.ts:43 | inserting one contact into a list ordered by `createdAt` keeps it ordered and adds exactly that contact |
| Matcher.LeastThenSorted | src/services/contactService.ts:43 | a contact no newer than every contact of an ordered list may be put in front of it |
| Matcher.SortByCreatedAt | src/services/contactService.ts:12 | `.order('createdAt', ascending)` yields the same rows, oldest first |
| Matcher.MatchesRequest | src/services/contactService.ts:8-12 | (definition) the filter of the first query: the contact carries the email the request carries, or the phone number the request carries |
| Matcher.DirectMatches | src/services/contactService.ts:8-12 | the first query yields, oldest first, each stored contact sharing the request's email or phone number, as often as it is stored |
| Matcher.DirectMatchesMembers | src/services/contactService.ts:8-12 | a contact is a direct match exactly when it is stored and shares an identifier the request carries |
| Matcher.Interpolated | src/services/contactService.ts:11 | (definition) a value as the template literal writes it into the filter text: an absent one becomes the text "undefined" |
| Matcher.MatchesRequestAsWritten | src/services/contactService.ts:11 | (definition) the first query's filter as written: the contact's email equals the interpolated email, or its phone number the interpolated phone number |
| Matcher.AbsentIdentifierMatchesNothing | src/services/contactService.ts:11 | an identifier the request lacks contributes no match; only the one present decides |
| Matcher.AsWrittenAgreesWhenBothPresent | src/services/contactService.ts:11 | when both identifiers are present, the filter text as written and the modelled filter select the same contacts |
| Matcher.AbsentPhoneMatchesUndefined | src/services/contactService.ts:11 | as written, a request without a phone number matches a contact whose stored phone number is the text "undefined" |
| Matcher.ChainId | src/services/contactService.ts:36 | (definition) the chain-id map of line 36: the linked id when it is present and not 0, the contact's own id otherwise |
| Matcher.ChainIds | src/services/contactService.ts:35-37 | (definition) the set of the chain ids of the direct matches |
| Matcher.InChain | src/services/contactService.ts:42 | (definition) the filter of the second query: the contact's id, or its present linked id, is one of the chain ids |
| Matcher.Closure | src/services/contactService.ts:39-43 | the second query yields, oldest first, each stored contact whose id or linked id is a chain id, as often as it is stored |
| Matcher.ClosureMembers | src/services/contactService.ts:39-43 | a contact is in the closure exactly when it is stored and its id or linked id is one of the chain ids |
| Matcher.ClosureContainsMatches | src/services/contactService.ts:35-43 | every direct match is in the closure of the matches' chain ids (each match's linked id, or its own id when unlinked), so the closure is empty only when nothing matched |
| Matcher.ClosureIncludesChains | src/services/contactService.ts:35-43 | the closure also holds the contact a matched chain is named after and every contact linked to that chain |
| Matcher.ClosureOfOnlyMember | src/services/contactService.ts:39-43 | a contact added to a table that has nothing else in the given chains is that closure's only member |
| Matcher.DirectMatchesOfOnlyMember | src/services/contactService.ts:8-12 | a matching contact added to a table where nothing else matches is the only direct match |
| MergePolicy.ScanForOtherPrimary | src/services/contactService.ts:48-54 | the flag loop raises `needsUpdate` exactly when some related contact marked primary has an id other than the reference primary's |
| MergePolicy.OtherPrimary | src/services/contactService.ts:50-54 | (definition) some related contact marked primary has an id other than the reference primary's |
| MergePolicy.HasNewEmail | src/services/contactService.ts:56 | (definition) the request's email is truthy and no related contact carries it |
| MergePolicy.HasNewPhoneNumber | src/services/contactService.ts:57 | (definition) the request's phone number is truthy and no related contact carries it |
| MergePolicy.NeedsUpdate | src/services/contactService.ts:47-61 | (definition) the final value of `needsUpdate` with `allRelatedContacts[0]` as the reference primary; `NoUpdateIff` restates it per contact, and `ScanForOtherPrimary` proves the flag loop computes its first disjunct |
| MergePolicy.NoUpdateIff | src/services/contactService.ts:47-61 | no write is needed exactly when every related primary has the reference's id and the group already carries each truthy identifier of the request (the definition of `NeedsUpdate` unfolded, stated by position) |
| MergePolicy.OtherPrimaryIffTwoPrimaries | src/services/contactService.ts:47-54 | when the oldest related contact is a primary, the flag loop fires exactly when two related contacts with different ids are both primaries |
| MergePolicy.OtherPrimaryWithOnePrimary | src/services/contactService.ts:47-54 | for example, when the oldest related contact is a secondary, one primary alone raises the flag: a witness table of two contacts |
| Consolidator.FirstPrimaryIndex | src/services/contactService.ts:102 | `find` yields the position of the first contact marked primary, or none when no contact is |
| Consolidator.PrimaryOf | src/services/contactService.ts:102 | the chosen primary is one of the contacts, and it is marked primary unless no contact is |
| Consolidator.TruthyValues | src/services/contactService.ts:109-114 | (definition) the values `if (x) set.add(x)` inserts, in scan order; `TruthyValuesMembers`, `TruthyValuesHead` and `TruthyValuesOrder` prove which values occur, which comes first and that first occurrences keep the scan order; repeats are left to the set |
| Consolidator.OtherIds | src/services/contactService.ts:115-117 | (definition) the ids pushed onto `secondaryContactIds`, in scan order; `OtherIdsMembers` and `OtherIdsOrder` prove which ids occur and that first occurrences keep the scan order; repeats are left to the `new Set` of line 124 |
| Consolidator.Consolidate | src/services/contactService.ts:97-128 | the consolidated view is an error exactly on an empty list, and that error is `EmptyContactSet` |
| Consolidator.BuildResponse | src/services/contactService.ts:97-128 | `buildResponse` fails exactly on an empty list and otherwise returns the consolidated view `Consolidate` defines |
| Consolidator.ScanContacts | src/services/contactService.ts:104-118 | the `forEach` loop leaves the two sets holding the truthy emails and phone numbers of the primary and then of every contact, in insertion order, and the array holding the ids other than the primary's in scan order |
| Consolidator.ScanStep | src/services/contactService.ts:112-114 | scanning one more contact inserts its truthy email and phone number into the two sets |
| Consolidator.TruthySnoc | src/services/contactService.ts:113-114 | `if (x) set.add(x)` inserts a value exactly when it is present and non-empty |
| Consolidator.TruthyValuesMembers | src/services/contactService.ts:113-114 | the values inserted are exactly the present, non-empty ones |
| Consolidator.TruthyValuesHead | src/services/contactService.ts:109-110 | a truthy first value is the first value inserted |
| Consolidator.TruthyValuesOrder | src/services/contactService.ts:112-114 | skipping empty and absent values keeps the others in the order the scan first meets them, in both directions |
| Consolidator.IdentifierListOrder | src/services/contactService.ts:104-123 | a set filled with `if (x) set.add(x)` yields its values in the order the scanned list first holds them |
| Consolidator.EmailsOrder | src/services/contactService.ts:108-122 | the emails read back keep the order in which the scan of the primary followed by the contacts first meets them |
| Consolidator.PhoneNumbersOrder | src/services/contactService.ts:108-123 | the phone numbers read back keep the order in which the scan of the primary followed by the contacts first meets them |
| Consolidator.IdentifierList | src/services/contactService.ts:104-123 | a set filled that way yields no value twice, exactly the non-empty present values, a truthy first value in front, in first-insertion order |
| Consolidator.ConsolidatePrimaryId | src/services/contactService.ts:98-102 | a non-empty list always yields a response, whose primary id is that of the first contact marked primary, or of `contacts[0]` when none is |
| Consolidator.EmailsMembers | src/services/contactService.ts:113 | an email is among the scanned emails exactly when some contact carries it |
| Consolidator.PhoneNumbersMembers | src/services/contactService.ts:114 | a phone number is among the scanned phone numbers exactly when some contact carries it |
| Consolidator.ConsolidateEmails | src/services/contactService.ts:104-122 | `emails`: no duplicates, exactly the non-empty emails of the contacts, the primary's first when it has one, then in the order the scan of the primary followed by the contacts first meets them |
| Consolidator.ConsolidatePhoneNumbers | src/services/contactService.ts:104-123 | `phoneNumbers`: no duplicates, exactly the non-empty phone numbers of the contacts, the primary's first when it has one, then in the order the scan of the primary followed by the contacts first meets them |
| Consolidator.IdsSnoc | src/services/contactService.ts:115-117 | scanning one more contact pushes its id exactly when it is not the primary's |
| Consolidator.OtherIdsMembers | src/services/contactService.ts:115-117 | the pushed ids are exactly the contact ids other than the primary's |
| Consolidator.OtherIdsOrder | src/services/contactService.ts:115-117 | skipping the primary's id keeps the other ids in scan order |
| Consolidator.ConsolidateSecondaryIds | src/services/contactService.ts:106-124 | `secondaryContactIds`: no duplicates, never the primary's id, exactly the ids of the other contacts, in the order the scan first meets them |
| ContactService.ContactStore.CreatePrimary | src/services/contactService.ts:20-28 | the insert appends one primary with the request's identifiers, no link and the next id, and keeps the table valid |
| ContactService.StoreValid | src/services/contactService.ts:20-28 | (definition) the table invariant behind `Valid()` and `CommitsValidTable`: a positive id counter, distinct ids between 0 and the counter, and every linked id naming a stored contact |
| ContactService.NewPrimary | src/services/contactService.ts:22-26 | (definition) the inserted row: the request's identifiers, no link, marked primary, under the given id |
| ContactService.CommitsValidTable | src/services/contactService.ts:80-92 | (definition) an assumption about the table's schema: any committed transaction leaves a valid table and never moves the id counter back |
| ContactService.TransactionsThatCommitValidTables | src/services/contactService.ts:80-92 | a transaction that always fails, and one that commits the table unchanged, both meet that guarantee, so it can be met |
| ContactService.ContactStore.HandleUpdateAndMerge | src/services/contactService.ts:72-93 | the transaction is called with the primary's id, the related ids in closure order and the request's identifiers; on success the table becomes what it leaves and its data is returned, on failure nothing changes and an error is returned; either way a valid table stays valid |
| ContactService.ContactStore.IdentifyContact | src/services/contactService.ts:5-69 | with no direct match, one primary is inserted and reported alone; otherwise the closure is non-empty, and when no write is needed the table is unchanged and the closure is reported; when one is needed, the merge outcome is reported; on every branch a valid table stays valid |
| ContactService.CreateKeepsValid | src/services/contactService.ts:20-28 | inserting a primary under the next id keeps ids distinct and positive and every link pointing at a stored contact |
| ContactService.FreshPrimaryResponse | src/services/contactService.ts:19-33 | a lone contact, such as the freshly created primary, is reported with its own id, its own truthy email and phone number, and no secondary ids |
| ContactService.EmailsTwice | src/services/contactService.ts:109-113 | a contact scanned after being inserted as the primary adds no email twice |
| ContactService.PhoneNumbersTwice | src/services/contactService.ts:110-114 | a contact scanned after being inserted as the primary adds no phone number twice |
| ContactService.IdentifyAgainAfterCreate | src/services/contactService.ts:5-68 | asking again with the identifiers of a contact just created finds only that contact, gathers it alone, and needs no write |
| ContactService.CreatedNeedsNoUpdate | src/services/contactService.ts:47-61 | a contact alone in its group that carries the request's identifiers needs no write |
| ContactService.CreatedIsOnlyMatch | src/services/contactService.ts:8-12 | after an insert into a table with no match, the new contact is the only direct match and its chain id is its own id |
| ContactService.NothingLinksToNextId | src/services/contactService.ts:39-43 | in a valid table no contact has, or links to, the next id |
| ContactService.CreatedChainIsAlone | src/services/contactService.ts:39-43 | the closure of a freshly created contact's chain is that contact alone |
| Scenarios.SameRequestTwice | src/services/contactService.ts:5-68 | the same request twice on a valid table it does not match adds one contact, keeps the table valid, and both calls report the same view |
| Scenarios.FirstContact | src/services/contactService.ts:19-33 | on an empty table, any request inserts one primary with id 1 and the request's identifiers, leaves the table valid, and reports that contact alone with the request's truthy email and phone number and no secondary ids |
| Scenarios.ExactMatch | src/services/contactService.ts:63-68 | a request whose email and phone number the only chain already carries writes nothing and reports that chain |
| Scenarios.ExactMatchChain | src/services/contactService.ts:8-61 | for that request, the only contact is the direct match and the closure, and no write is needed |
| Scenarios.TwoChains | src/services/contactService.ts:35-85 | an email found on one primary and a phone number found on another gather both chains, need a write, and call the merge transaction with the older primary's id and both ids |
| Scenarios.TwoChainsMatches | src/services/contactService.ts:8-12 | in that table both primaries are direct matches, oldest first |
| Scenarios.TwoChainsClosure | src/services/contactService.ts:39-43 | in that table the closure of both chains is both primaries, oldest first |

## Left out

- The database client and its errors: the two queries and the insert cannot fail over an in-memory table. So the thrown query errors (lines 14-17 and 45) and the insert error (line 30) are not modelled.
- The body of `update_and_merge_contacts` is a database transaction whose code is not part of this model. It is a function parameter, so nothing about demotion, relinking or seniority after a merge is claimed. The only assumption about it is `CommitsValidTable`, an assumption about the table's schema that the source does not show: ids stay distinct and positive, the id counter never goes back, and links keep pointing at stored rows.
- The transaction returning no error and a null `data` is not modelled. The model's outcome always carries a (possibly empty) list, and an empty list makes the response an error.
- The text of the PostgREST filter strings is left out. The model filters on values, so an email or phone number that holds a filter delimiter (a comma or a parenthesis) is not modelled.
- Matcher.MatchesRequest: an absent identifier matches nothing. Matcher.MatchesRequestAsWritten shows the literal interpolation instead (see Findings).
- Matcher.SortByCreatedAt: contacts with equal `createdAt` keep their table order. The database guarantees no order for ties. The sort is stable by its definition, but its contract states only the order by `createdAt` and the permutation, not that stability.
- Collections.Filter: the body keeps the selected elements in their order in the table, but the contract states only membership and counts, not that order.
- `createdAt` is an `int`, not the timestamp string: only its order matters. `updatedAt` and `deletedAt` are left out, because no logic reads them.
- The HTTP layer of `src/index.ts` is left out (routing, JSON parsing, status codes, `app.listen`). Its guard that at least one identifier is truthy is the precondition of `IdentifyContact`.
- `console.error` logging is left out.
- Concurrency and atomicity of the insert and the merge are the database's concern and are left out. Each call runs alone against the table.
- The clock is a parameter (`now`), and the table's id counter is explicit state (`nextId`).
- The flag loop tells primaries apart by id, as the code does. It does not count primaries. `MergePolicy.OtherPrimaryWithOnePrimary` shows the two tests differ when the oldest related contact is a secondary.
- There is no tie-break on `id` for equal `createdAt` and no retry on a duplicate identifier. The code has neither.

## Findings

| source | as written | input that shows it | evidently intended | confidence | as-written member | corrected member |
|---|---|---|---|---|---|---|
| src/services/contactService.ts:11 | both identifiers are interpolated into the filter text, so an absent one becomes the text "undefined" | a request with email "a@x.com" and no phone number, against a stored contact whose phone number is "undefined" | an absent identifier matches nothing | not executed | Matcher.AbsentPhoneMatchesUndefined | Matcher.AbsentIdentifierMatchesNothing |
