# A verified model of identity-api

identity-api issues tokens for users of registered identity providers and keeps groups of subjects. This Dafny project
models its three most intricate parts over one store and proves what they keep.

1. **Group membership** (`GroupStore`, `Permissions`, `GroupApi`, `GroupRuns`, `GroupRequests`, `Differences`). A
   request opens a transaction, changes tables, publishes relations to an external permission graph, then commits or
   rolls back. Any publish or commit may fail, and a failed publish may have taken effect on any part of its relations.
   Plain equality of tables and graph is therefore not kept; `GroupRuns.RunAgrees` says on which relations they agree
   after every run, and `GroupRuns.ReplaceInSyncIff` says exactly when replacing members keeps full agreement.
   `GroupRequests` says exactly when each request is accepted and what it leaves in the tables.
2. **Keyset pagination** (`Cursors`, `Base64Url`, `QueryCodec`, `Sql`, `Select`, `QueryText`, `Pagination`, `Traversal`,
   `Listings`). A page request is followed from end to end: the cursor text is decoded, the SQL statement is printed,
   lexed and parsed back, answered by any answer SQL allows, and the next cursor is encoded
   (`Traversal.TextsAreTraversals`). `Traversal.ChangingTable`, `Traversal.FixedTable` and `Traversal.CompleteIff` say
   what following `next` lists.
3. **Token exchange** (`Identity`, `TokenExchange`, `ExchangeRuns`, `ExchangeLaws`, `IssuerUpdates`,
   `IssuerAdministration`). RFC 8693 exchanges mixed with issuer creation, update and deletion.
   `ExchangeRuns.SubjectsIdentify` is the promise that section 4.1.2 of RFC 7519 asks of `sub`: the same subject exactly
   for the same issuer and effective subject. `ExchangeLaws` says what an exchange stores and issues in terms of the
   stored issuer row and the token's claims alone.

`ServiceRuns` runs all of it together from an empty database. `Storage` holds the tables and the transaction of a
request, `Bytes` Go strings and their order, `Audience` the OAuth client audience column.

Objects that the program updates in place are classes whose methods are proved against functions on values; runs are
folds of those functions, and the theorems about runs are about the folds.

## How the model reads the program

- Go strings are byte sequences (`Bytes.Str`); a byte is written as the character with that code. The database orders
  keys byte by byte.
- A context carries at most one transaction with a private view; requests are sequential. `Replace` reads the current
  members from the committed store, as the code does (internal/storage/groups.go:314-316).
- An upsert on (sub, iss_id) returns the existing row's ID; failing that, a taken ID is an error; failing that, the row
  is inserted.
- The ORDER BY of an answer is a constraint on answers, not a function: a statement without ORDER BY, as printed for an
  unreadable cursor, may be answered in any order.
- Calls outside the repository are parameters: identifier parsing, SHA-256, CEL evaluation, decoding of stored
  mappings, token validation, access checks, driver errors, and how begin, publish, writing the response body,
  rollback and commit turn out.
- The claims type of fosite is taken to keep `sub` only as non-empty text, and to let registered claims win over extra
  ones of the same name.

## Findings

- The printed LIMIT is not clamped while the announced one is, so a limit above 100 ends a listing after one answer
  (`Traversal.CompleteIff`). The documentation of the API names no maximum.
- Publishing skips an empty subject ID (internal/events/groups_event.go:29). If the identifier parser, which is not part
  of this model, lets one through to the table, listing one row at a time stops at it (`Traversal.StopsAtEmptyKey`).
- A listing reads the table of a minute before, so it does not show a replacement that was just committed
  (`Listings.StaleListing`).
- `Cursor.Set` panics on a nil or empty cursor (`Cursors.SetChangesOneKey`).
- `Order` quotes its fields in place, so a second call prints them quoted twice (`QueryText.OrderRepeatedly`).
- A replacement whose second publish fails rolls the tables back but not the first publish
  (`GroupRuns.ReplaceInSyncIff`), and later replacements repair only the relations they change
  (`GroupRuns.ReplaceRepairsIff`).
- The success status is written before the commit, so a client reads success when the commit fails
  (`GroupRuns.StatusDisagreesIff`).
- Deleting an issuer and creating it again with the same URI gives the same subject to a new identity
  (`ExchangeRuns.RecreatedIssuerReusesIff`).
- IDs are made from issuer and subject run together, so of two identities whose texts concatenate alike only the first
  can be issued a token (`ExchangeLaws.CandidatesShareIff`, `ExchangeLaws.SharedCandidateLocksOut`,
  `ExchangeLaws.ConcatenationLocksOut`).
- A cursor that does not decode or names another field is answered with ten rows in no order rather than refused
  (`Pagination.AnyCursorReads`).
- An issuer update without any field prints a statement that does not parse (`IssuerUpdates.UpdateParses`).
- A mapped override that is not text panics (`ExchangeRuns.PanicsIff`, `ExchangeRuns.OverridePanics`). The panic and two
  refusals leave their transaction open and commit nothing (`ExchangeLaws.LeavesOpenIff`, and the handler's contract).

## Model

| member | source | states |
|---|---|---|
| GroupRuns.RunAgrees | internal/api/httpsrv/handler_group_members.go:53-64 | Over every run of group requests, however publishes and commits end, tables and permission graph agree on every relation not in doubt; a late failure puts the relations it named in doubt, a commit clears the ones it names |
| GroupRuns.RunInSync | internal/api/httpsrv/handler_group_members.go:187-206 | Starting in agreement and without a late failure, the graph equals what the tables call for in every state of the run |
| GroupRuns.PublishesMatchTables | internal/api/httpsrv/handler_group_members.go:142-153 | For every request the store accepts, publishing its events turns the relations of the old tables into exactly those of the new tables |
| GroupRuns.CommitHeals | internal/api/httpsrv/handler.go:38-42 | A committed request makes every relation it names agree whatever the graph held, and leaves the agreement of all others as it was |
| GroupRuns.FailureIsContained | internal/api/httpsrv/handler.go:27-36 | A request that does not commit leaves the tables unchanged and can disturb agreement only on relations it named |
| GroupRuns.ReplaceInSyncIff | internal/api/httpsrv/handler_group_members.go:196-204 | Exactly when an accepted replacement keeps agreement, over every outcome of its two publishes and its commit; a failed second publish is harmless only if the first had nothing to revoke and the second took no effect |
| GroupRuns.ReplaceRepairsIff | internal/api/httpsrv/handler_group_members.go:187-206 | After any committed replacement everything agrees exactly if every relation outside those it changes agreed before; a kept member agrees exactly if it did before |
| GroupRuns.ReplaceDoesNotRepair | internal/api/httpsrv/handler_group_members.go:159-207 | A concrete instance: a missing relation of the one kept member survives a committed replacement and is repaired by adding the subject again |
| GroupRuns.StatusDisagreesIff | internal/api/httpsrv/server.gen.go:740-747 | For every request, the client reads success although nothing was committed exactly when the handler accepted it and then writing the body or committing failed; the opposite never happens |
| GroupRuns.DeliverEffect | internal/events/groups_event.go:21-70 | Publishing in order without a failure applies everything; up to a failure only the named relations can change |
| GroupRuns.StepKeepsValid | internal/storage/groups.go:86-114 | Every group statement keeps memberships on existing groups and names non-empty and unique per owner, and leaves the other tables alone |
| GroupRuns.DeleteNeverTripsForeignKey | internal/api/httpsrv/handler_group.go:253-274 | The delete handler never meets the foreign key, and gets through exactly when the group exists without members |
| GroupRuns.RunKeepsValid | internal/storage/groups.go:190-245 | Every run of group requests keeps every constraint of the store |
| GroupRequests.CreateGroupLaw | internal/api/httpsrv/handler_group.go:26-88 | Accepted exactly if nothing hinders it, the name is not empty, ID and name under the owner are free, and the grant is delivered; committed, the row holds the requested owner, name and description and nothing else changes |
| GroupRequests.UpdateGroupLaw | internal/storage/groups.go:190-225 | Accepted exactly if nothing hinders it, the group exists and no other group of its owner has the new name; committed, a non-empty name and a given description replace the old ones, and owner, other groups, members and graph are unchanged |
| GroupRequests.DeleteGroupLaw | internal/api/httpsrv/handler_group.go:223-282 | Accepted exactly for an existing group without members whose parent is revoked; committed, exactly that group is gone |
| GroupRequests.AddMembersLaw | internal/storage/groups.go:247-284 | Accepted exactly for an existing group, or any group when no subjects are given, and a delivered or empty grant; committed, exactly the requested rows are added |
| GroupRequests.RemoveMemberLaw | internal/storage/groups.go:341-369 | Accepted exactly if the row is there and its revocation is delivered or empty; committed, exactly that row is gone |
| GroupRequests.ReplaceMembersLaw | internal/api/httpsrv/handler_group_members.go:159-207 | Accepted exactly for an existing group when each publish is delivered or has nothing to say; committed, the group's rows are exactly the requested ones and no other row changes |
| GroupRequests.RefusedBecause | internal/storage/groups.go:86-114 | Which error the store gives to each request, each exactly when it applies: empty name, not found, member not found, members left, name or ID taken; and no other |
| GroupApi.MiddlewareAtomic | internal/api/httpsrv/handler.go:15-45 | For every handler, even one that ends its transaction itself, the store afterwards is the old one or the handler's whole view, the latter exactly when begin, handler and commit all succeeded; exactly which error is returned; and the client's status disagrees exactly when the handler wrote success and nothing was published |
| GroupApi.Api.StorageMiddleware | internal/api/httpsrv/handler.go:15-45 | Begin, handle, then roll back or commit takes the committed store and the graph where the request's step takes them, with that step's returned verdict and client status |
| GroupApi.Api.RollbackAndFail | internal/api/httpsrv/handler.go:106-115 | Ends the transaction and reports failure whether or not the rollback works |
| GroupApi.Api.HandleCreate | internal/api/httpsrv/handler_group.go:26-88 | Ends as the request's step: same transaction, graph and verdict |
| GroupApi.Api.HandleUpdate | internal/api/httpsrv/handler_group.go:169-220 | Ends as the request's step; nothing is published |
| GroupApi.Api.HandleDelete | internal/api/httpsrv/handler_group.go:223-282 | Ends as the request's step: refuses a group with members, else deletes it and revokes its parent |
| GroupApi.Api.HandleAdd | internal/api/httpsrv/handler_group_members.go:25-67 | Ends as the request's step: adds rows, then publishes; a failed publish rolls back |
| GroupApi.Api.HandleRemove | internal/api/httpsrv/handler_group_members.go:109-156 | Ends as the request's step: removes the row or fails, then publishes |
| GroupApi.Api.HandleReplace | internal/api/httpsrv/handler_group_members.go:159-207 | Ends as the request's step: two publishes in order, the first kept when the second fails |
| GroupApi.Api.ParseAll | internal/api/httpsrv/handler_group_members.go:163-181 | Accepts exactly when the group and every member identifier parse |
| GroupStore.GroupService.CreateGroup | internal/storage/groups.go:65-114 | The transaction holds the new row, or the error is the empty name or the taken ID or name |
| GroupStore.GroupService.UpdateGroup | internal/storage/groups.go:190-225 | Present fields replace the current ones, an empty name does not, and a name taken by another group of the owner is refused |
| GroupStore.GroupService.DeleteGroup | internal/storage/groups.go:227-245 | Deletes an existing group without members from the transaction |
| GroupStore.GroupService.AddGroupMembers | internal/storage/groups.go:247-284 | The bound placeholders write exactly one row per subject; no subjects means no statement |
| GroupStore.GroupService.ListGroupMembers | internal/storage/groups.go:286-339 | Without pagination: every committed member once, in some order |
| GroupStore.GroupService.GroupMembersCount | internal/storage/groups.go:459-474 | Scanning the committed rows counts each subject of the group once; zero exactly when the group has no row |
| GroupStore.GroupService.RemoveGroupMember | internal/storage/groups.go:341-369 | Removes the row, or reports the missing group or member and changes nothing |
| GroupStore.GroupService.ReplaceGroupMembers | internal/storage/groups.go:371-403 | The view changes by the difference to the committed members; the additions returned are the incoming list, order and repetitions kept, without the committed members, and the removals are the committed members not asked for, each once |
| GroupStore.ReplaceConverges | internal/storage/groups.go:371-403 | On a view with the committed members the group ends with exactly the incoming set, other groups and tables are untouched, and repeating it changes nothing |
| GroupStore.ReplaceNeedsFreshRead | internal/storage/groups.go:314-316 | With any other read of the current members, exactly when the group still ends with the incoming set |
| Differences.Diff | internal/storage/helpers.go:4-29 | Returns the two one-sided differences; swapping the inputs swaps the outputs |
| Differences.WithoutCount | internal/storage/helpers.go:16-26 | Exactly the elements with an unseen key remain, each as often as before |
| Differences.WithoutSubsequence | internal/storage/helpers.go:16-26 | They remain in the same order |
| Differences.DiffConverges | internal/storage/helpers.go:4-29 | Current keys minus the removed plus the added are the incoming keys, and the two lists do not overlap |
| Differences.DiffSettled | internal/storage/helpers.go:4-29 | Equal key sets leave nothing to add or remove |
| Permissions.Events.AddGroupMembers | internal/events/groups_event.go:21-46 | One grant of the non-empty subjects' relations, or no call when there are none |
| Permissions.Events.RemoveGroupMembers | internal/events/groups_event.go:49-70 | One revocation of the non-empty subjects' relations, or no call when there are none |
| Permissions.Events.CreateGroup | internal/events/groups_event.go:73-81 | Grants the parent relation |
| Permissions.Events.DeleteGroup | internal/events/groups_event.go:84-92 | Revokes the parent relation |
| Storage.Database.BeginContext | internal/storage/context.go:12-21 | A new context starts from the committed store |
| Storage.Database.CommitContext | internal/storage/context.go:34-41 | Publishes the view only from a running transaction and only if the commit works; the transaction ends either way |
| Storage.Database.RollbackContext | internal/storage/context.go:43-50 | Drops the view; ending twice is an error |
| Traversal.ChangingTable | internal/storage/groups.go:286-339 | With rows inserted and deleted between requests and for every limit: keys come strictly increasing, none twice. A finished traversal has returned every row present throughout, if the limit is at most 100 and no page of one row can hold the empty key |
| Traversal.FixedTable | pkg/api/v1/paginate_group_members.go:27-44 | On a fixed table of n rows and a printed limit L of at most 100, the traversal is over after exactly n/L + 1 requests and has returned the keys in order |
| Traversal.CompleteIff | internal/crdbx/template_values.go:96-102 | Exactly when a finished traversal listed everything: up to limit 100 unless single rows are asked of a table listing the empty key beside others; above 100 only if one answer holds every row |
| Traversal.StopsAtEmptyKey | internal/crdbx/cursor.go:79-85 | A limit of one stops after the empty key, whose cursor is empty and printed as null |
| Traversal.OverLimit | pkg/api/v1/paginate_groups.go:27-40 | Above limit 100 the traversal returns one answer's rows and no more |
| Traversal.AnnouncedIsAskedIff | internal/crdbx/pagination.go:9-12 | The announced limit is the printed one exactly for limits of at most 100; both are 10 by default, and the announced one is never above 100 |
| Traversal.TraversalEnds | internal/crdbx/pagination.go:61-101 | Every request has an answer, and from any position and for any limit some traversal finishes |
| Traversal.AnswerIsPage | internal/storage/groups.go:296-307 | Whatever answer the database gives to the statement, its keys are the smallest ones above the position, as many as asked |
| Traversal.FullIffMore | pkg/api/v1/paginate_group_members.go:30-41 | There is a page to go on to exactly when this one is full, and it starts after the last key |
| Traversal.TextsAreTraversals | internal/storage/groups.go:286-339 | Exchanging statement texts and cursor texts with the server, following each offered cursor, is traversing by position, and both end together |
| Pagination.ServedIff | internal/storage/groups.go:294-307 | Through cursor decoding, printing and parsing, being served is answering the one-key statement with the decoded key bound |
| Pagination.Paginate | internal/crdbx/pagination.go:61-101 | Gives the fields and values of the permitted cursor fields in declared order, and no pagination at all for a cursor that does not decode or names another field |
| Pagination.AnyCursorReads | internal/crdbx/pagination.go:78-91 | For every cursor, the printed listing reads back as the statement positioned at the cursor's key, or, when the cursor does not decode or names another field, as ten rows in no order from no past time |
| Pagination.ClausesPrinted | internal/crdbx/template_values.go:33-113 | The clause texts themselves for a first and a later page: past time, condition, order and limit |
| Pagination.GivenInOrder | internal/crdbx/pagination.go:93-99 | Fields and values given by a cursor come in declared order |
| Pagination.BindingPositions | internal/crdbx/template_values.go:59-70 | Each printed test compares its field with that field's own cursor value, exactly the given fields are tested, and the order is by the permitted fields, id when none are named |
| Pagination.ConjunctionIsPositionIff | internal/crdbx/template_values.go:64-69 | Joining the tests with AND selects the rows after every cursor exactly for a single field |
| Pagination.SetPagination | pkg/api/v1/paginate_group_members.go:27-44 | Announces the clamped limit, sets the cursor of the last key exactly on a full page, and otherwise leaves Next as it was |
| Listings.MemberTable | internal/storage/migrations/0005_group_membership.sql:2-6 | The primary key makes subjects unique within a group, and the rows listed are the group's subjects |
| Listings.GroupTable | internal/storage/migrations/0004_groups.sql:2-8 | The primary key identifies groups, and the rows listed are the owner's groups |
| Listings.ReplacedMembers | internal/api/httpsrv/handler_group_members.go:187-206 | After a committed replacement the group has exactly the requested subjects and other groups are unchanged |
| Listings.ReplaceThenList | internal/api/httpsrv/handler_group_members.go:70-106 | Over snapshots taken after a committed replacement, a finished traversal returns exactly the requested subjects, once each and in order |
| Listings.StaleListing | internal/storage/groups.go:294-307 | Over snapshots from before it, as AS OF SYSTEM TIME -1m gives for a minute, a finished traversal returns the old members, hence the requested ones exactly when there was nothing to change |
| QueryText.Where | internal/crdbx/template_values.go:59-70 | Prints text that lexes and parses back to the conjunction of the intended tests |
| QueryText.WhereReads | internal/crdbx/template_values.go:59-70 | For every qualifier and field names whatever they contain, the printed conditions read back as the intended tests |
| QueryText.ListingReads | internal/storage/groups.go:296-303 | The whole printed listing statement lexes and parses back to the intended statement |
| QueryText.QuoteFields | internal/crdbx/template_values.go:154-160 | Overwrites its slice with the quoted fields |
| QueryText.Order | internal/crdbx/template_values.go:118-126 | Prints the extra fields and the quoted order fields, and leaves the order fields quoted once more |
| QueryText.OrderRepeatedly | internal/crdbx/template_values.go:118-126 | Called k times on one set of values, the j-th text has every field quoted j times and the slice ends quoted k times |
| QueryText.UnquotingRecovers | internal/crdbx/template_values.go:146-160 | k unquotings recover a field quoted k times, and a single call names the declared field |
| Cursors.NewCursor | internal/crdbx/cursor.go:88-106 | Fails exactly on an odd list; otherwise reading the cursor gives each key its last non-empty value and no other key |
| Cursors.FromValuesRoundTrip | internal/crdbx/cursor.go:119-127 | Reading a cursor made from a map gives the map, and only the empty map gives the empty cursor |
| Cursors.SetChangesOneKey | internal/crdbx/cursor.go:33-56 | Set succeeds exactly on a non-empty cursor that decodes and then changes exactly that key; it panics exactly on a nil or empty one |
| Cursors.Cursor.Set | internal/crdbx/cursor.go:33-56 | Overwrites the cursor in place as specified, or leaves it |
| Cursors.KeyCursorReads | pkg/api/v1/paginate_groups.go:31-36 | The one-key cursor reads back as its key and value, and is empty exactly for an empty value |
| Base64Url.RoundTrip | internal/crdbx/cursor.go:124-124 | Decoding an encoded text gives the text (section 5 of RFC 4648, padded, line breaks ignored) |
| Base64Url.Vectors | internal/crdbx/cursor.go:124-124 | Vectors of section 10 of RFC 4648 and the two characters of the URL alphabet |
| QueryCodec.RoundTrip | internal/crdbx/cursor.go:24-24 | Parsing an encoded map gives the map, for all keys and values |
| QueryCodec.TwoKeysEncoded | internal/crdbx/cursor.go:124-124 | Any two keys are printed in byte order as escaped pairs |
| QueryCodec.EscapedForm | internal/crdbx/cursor.go:124-124 | Spaces become plus signs, reserved bytes upper-case hex, unreserved ones stay |
| QueryCodec.ParseHasNoEmptyList | internal/crdbx/cursor.go:24-29 | A parsed query never has a key without values |
| ExchangeRuns.SubjectsIdentify | internal/rfc8693/rfc8693.go:269-320 | Two issued tokens with any run of exchanges and issuer changes between them carry the same subject exactly when they are about the same issuer and effective subject, unless that issuer was deleted between |
| ExchangeRuns.RunKeepsRow | internal/storage/userinfo.go:290-324 | A committed user row keeps its ID, name, email, subject and issuer until its issuer is deleted, whatever mappings, overrides or URIs become |
| ExchangeRuns.ExistingRowReturned | internal/storage/userinfo.go:281-324 | A pair that has a row is issued that row's ID, exactly when the transaction, the session and the making of a candidate ID work, and nothing is written |
| ExchangeRuns.TakenIdFails | internal/rfc8693/rfc8693.go:289-316 | Exactly when a pair without a row is issued a token: transaction and session work, name and email parse, and the generated or overridden ID is valid and free; the token carries that ID, and a taken one commits nothing |
| ExchangeRuns.RecreatedIssuerReusesIff | internal/storage/userinfo.go:44-55 | For every issued token: after its issuer is deleted and created again under another ID with the same URI, mappings and conditions, a different identity receives the same subject exactly when that subject was the pair's generated or overridden ID and the claims parse; always when the pair was new |
| ExchangeRuns.RecreatedIssuerReusesSubject | internal/storage/issuer.go:198-224 | A concrete run that does so, for an issuer whose stored mappings decode to none |
| ExchangeRuns.PanicsIff | internal/rfc8693/rfc8693.go:289-305 | An exchange panics exactly when its transaction begins, it is admitted, its user can be read, and the issuer's stored override mapping evaluates on the claims to something other than text; nothing is committed then |
| ExchangeRuns.OverridePanics | internal/rfc8693/rfc8693.go:294-294 | A concrete panicking exchange |
| ExchangeRuns.LeavesOpenMeans | internal/rfc8693/rfc8693.go:289-302 | An exit that leaves the transaction open commits nothing and is a refusal or a panic; every panic and every unreadable user is such an exit |
| ExchangeRuns.Provenance | internal/rfc8693/rfc8693.go:238-316 | Every user row of a run was there at the start or came from an exchange for that very pair whose token validated and whose stored issuer row had no condition or one that evaluates to true, with every stored mapping evaluating |
| ExchangeRuns.ConditionIff | internal/rfc8693/claims.go:89-120 | The condition holds, or does not, exactly as the stored text of the issuer with that URI evaluates; none holds, and anything but a boolean is an error |
| ExchangeRuns.AdmittedIff | internal/rfc8693/rfc8693.go:209-267 | An exchange gets past condition and mapping exactly if its form has a JWT subject token and no actor, issuer and subject are there, and the stored issuer row vouches for the claims |
| ExchangeLaws.IssuedRow | internal/rfc8693/rfc8693.go:269-275 | The row of an issued subject has the issuer the token names, and as subject the non-empty text of the stored mapping for sub if it gives one, else the token's own |
| ExchangeLaws.NewIdentity | internal/storage/userinfo.go:311-313 | Through every later run that spares the issuer, looking a newly issued subject up gives the token's own name and email, empty where absent, and the subject of the row |
| ExchangeLaws.IssuedStore | internal/storage/userinfo.go:290-324 | An issued token adds at most its own row; a known subject leaves the store as it was |
| ExchangeLaws.CandidateIs | internal/storage/userinfo.go:44-55 | The ID of a new user, letter by letter: from the stored override with the issuer's digest, or from the digest of issuer and subject; or which way it fails |
| ExchangeLaws.IssuedExtra | internal/rfc8693/rfc8693.go:323-327 | Every stored mapping but the override reaches the token with its evaluated value, sub only as non-empty text, and nothing else does |
| ExchangeLaws.CandidatesShareIff | internal/storage/userinfo.go:44-55 | For a digest without collisions, generated IDs are equal exactly if issuer and subject concatenate to the same text, overridden ones exactly for the same issuer and override, and the two kinds never |
| ExchangeLaws.SharedCandidateLocksOut | internal/storage/userinfo.go:281-324 | An identity whose candidate ID another has is refused, with nothing stored, through every run that spares the other's issuer |
| ExchangeLaws.ConcatenationLocksOut | internal/storage/userinfo.go:44-46 | For every issuer URI and a longer one, two identities that concatenate alike: either is served alone, the second is refused |
| ExchangeLaws.LeavesOpenIff | internal/rfc8693/rfc8693.go:289-302 | Exactly when an admitted exchange leaves its transaction open, read off the user table, the claims and the stored override mapping |
| ExchangeLaws.AdministrationLaw | internal/storage/issuer.go:175-224 | Creating, updating and deleting an issuer in a run changes exactly that row, and on deletion its users, exactly when the request goes well and the table allows it |
| ExchangeRuns.PerformStores | internal/rfc8693/rfc8693.go:284-316 | An exchange adds at most one row and changes none, the row is its own pair's, and nothing is committed unless the commit works |
| ExchangeRuns.IssuedLooksUp | internal/storage/userinfo.go:125-165 | Looking an issued subject up gives the exchanged issuer and effective subject, through every later step that does not update or delete that issuer |
| ExchangeRuns.PopulateSpeaksOfClaims | internal/rfc8693/rfc8693.go:426-455 | Looked up or parsed, the user info carries the claims' issuer and subject and no ID |
| ExchangeRuns.OnlyExchangesAddUsers | internal/rfc8693/rfc8693.go:255-267 | A step that adds a user is an admitted exchange for that pair |
| ExchangeRuns.RunKeepsValid | internal/storage/issuer.go:198-224 | Every run keeps users on existing issuers, one row per issuer and subject, unique URIs, and the group tables |
| TokenExchange.TokenExchangeHandler.HandleTokenEndpointRequest | internal/rfc8693/rfc8693.go:209-391 | Commits and answers as the exchange step: every refusal, the panic on a non-text override, and the issued subject. At exit the transaction is still open exactly after a user that cannot be read, an override that is no identifier, or the panic |
| TokenExchange.TokenExchangeHandler.MapClaims | internal/rfc8693/claims.go:31-72 | Fails on an empty subject or issuer, an unknown issuer, or any mapping that does not evaluate; otherwise maps every key |
| TokenExchange.EvalMappings | internal/rfc8693/claims.go:58-65 | The loop gives every mapping its value, or fails if one does not evaluate, whatever the order |
| TokenExchange.UserInfoService.StoreUserInfo | internal/storage/userinfo.go:253-325 | The transaction holds the pair's row under its existing ID, or a new row under a free one, or is unchanged with the error |
| Identity.StoreUserExact | internal/storage/userinfo.go:290-324 | The stored ID is the one row of issuer and subject, other rows are untouched, and a new row looks up to exactly the given user |
| Identity.LookupsTellRow | internal/storage/userinfo.go:75-165 | Looking a user up by ID or by claims tells its row, the latter without the ID |
| Identity.StoreUserRefusals | internal/storage/userinfo.go:253-320 | Why a user is not stored, each reason exactly when it applies: empty issuer or subject, unknown issuer, generated text that is no identifier, taken ID |
| Identity.ParseUserInfoIff | internal/storage/userinfo.go:327-374 | Claims parse exactly if issuer and subject are non-empty texts and name and email are texts where present; a claim is missing exactly if issuer, or after it subject, is absent or empty |
| Identity.DeleteIssuerExact | internal/storage/issuer.go:198-224 | Deleting an unknown issuer changes nothing; deleting a known one removes exactly it and its users and keeps every constraint |
| Identity.UpdateIssuerIff | internal/storage/issuer.go:175-195 | An update succeeds exactly if the issuer exists and no other has its new URI, so always without one; the given columns of that row change and nothing else |
| Identity.InsertIssuerIff | internal/storage/migrations/0001_initial.sql:2-9 | A new issuer is accepted exactly if ID and URI are free; its row is the one thing added |
| IssuerUpdates.PrintedUpdateIsRecordUpdate | internal/storage/issuer.go:175-195 | The printed UPDATE parses exactly when a field is set; run under positional binding it is the record update, with the last placeholder bound to the row ID |
| IssuerUpdates.ColBindingsToParams | internal/storage/query.go:15-28 | Prints one numbered assignment per binding and returns the values in the same order |
| IssuerUpdates.UpdateParses | internal/storage/issuer.go:188-188 | Without bindings the statement is a syntax error, otherwise it parses to the intended assignments |
| IssuerAdministration.PrintedUpdateExecutes | internal/storage/issuer.go:175-195 | Executing the printed text with its arguments on a store is the record update with its errors, and a syntax error when no field is set |
| IssuerAdministration.IssuerService.UpdateIssuer | internal/storage/issuer.go:175-195 | Reading and running the printed statement takes the transaction where the record update does, with the not-found, duplicate and syntax errors |
| IssuerAdministration.IssuerService.CreateIssuer | internal/storage/issuer.go:270-312 | Inserts the row, or reports a taken ID or URI |
| IssuerAdministration.IssuerService.DeleteIssuer | internal/storage/issuer.go:198-224 | Two statements leave the issuer and its users gone |
| IssuerAdministration.IssuerService.SeedDatabase | internal/storage/issuer.go:60-88 | Seeds all issuers or none |
| IssuerAdministration.InsertAllHolds | internal/storage/issuer.go:66-76 | All seeds are there afterwards with every issuer from before, and nothing else |
| IssuerAdministration.SeedsAcceptedIff | internal/storage/issuer.go:66-76 | Seeding goes through exactly if every seed is new to the table and no two share an ID or a URI |
| ServiceRuns.ServiceAgrees | internal/api/httpsrv/handler.go:15-45 | Group requests, exchanges and issuer changes in any order: tables and graph agree on every relation not in doubt |
| ServiceRuns.Run | internal/storage/migrations/0001_initial.sql:2-17 | Every reachable store meets every constraint of the four tables |
| ServiceRuns.FromNothing | internal/api/httpsrv/handler.go:15-45 | The same from an empty database and graph |
| Audience.ReadBack | internal/storage/oauth_client.go:114-178 | Splitting a stored audience is splitting each element in turn |
| Audience.RoundTripIff | internal/storage/oauth_client.go:114-178 | A list survives storage exactly when every element is non-empty and free of white space |
| Audience.StoringIsIdempotent | internal/storage/oauth_client.go:178-178 | Storing a list that was read back changes nothing more |

## Left out

- Token parsing, signatures, key lookup, hashing and ID generation: calls into other code, taken as parameters.
- CEL compilation and evaluation, and the encodings of stored expressions: taken as parameters.
- Permission checks, audit, tracing, routing, configuration, key loading, commands and migrations: wiring.
- Concurrent requests: requests run one after another, because the member read of `Replace` is outside its transaction.
- Commits with an unknown outcome: a commit that reports an error is taken not to have happened.
- Driver errors inside an exchange's own statements: they take the paths of the errors that are modelled.
- `ListGroupsBySubject`, `LookupUserInfosByIssuerID` and the remaining paginators: the same rule on a join or another
  collection.
- The group lookup before a member listing: `Traversal` starts from a group that was found.
- Mapped claims that the claims type of fosite keeps in fields of their own (jti, iss, aud, iat, nbf, exp, scp): they
  are carried like any other mapped claim.
- The client credentials flow: field setting around fosite.
- OAuth client rows other than their audience: plain insertion and deletion.
- Token expiry, headers, audience and client claims of an issued token: field setting after the commit.
- AS OF SYSTEM TIME with a time value: only the text form is printed; which past state a snapshot is stays open.
