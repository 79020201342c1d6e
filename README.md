# muisti-api: reconciliation, copy, request chains and storage keys

A Dafny model of the behavioural core of muisti-api. muisti-api is the Kotlin/Quarkus back end of a museum exhibition
management system.

- **Common.dfy** holds the shared pieces:
  - `Id`, a natural number standing for a UUID;
  - `Option`;
  - Java's `Character.isWhitespace`, `StringUtils.isBlank` and `startsWith`;
  - removal from a list at an index.
- **Reconcile.dfy** is the set-difference walk shared by `setVisitorSessionVisitors` and `setContentVersionRooms`:
  1. The owner's join rows are loaded into a mutable working list.
  2. Each target either matches the first row that links it, which then leaves the working list, or gets a new row.
  3. The rows left over are deleted.

  `PlanLinks` is the walk. `SetLinks` is the join table afterwards. The lemmas state what the walk and the table
  guarantee.
- **VisitorSessionController.dfy** models the session store as a class. Its fields are the `seq` tables of
  sessions, visitors, session–visitor links and session variables, plus a fresh-id counter. Its methods follow the
  controller's operations:
  - `createVisitorSession`, `findVisitorSessionById`, `listVisitorSessions` with its tag filter and
    `updateVisitorSession`;
  - the two reconciliations, as loops over the working list with their invariants;
  - `deleteVisitorSession` with its cascade.
- **ContentVersionDAO.dfy** is the content-version table. **ContentVersionController.dfy** is the controller on top
  of it: create, find, list by exhibition or room, room reconciliation, copy, update and cascade delete.
- **ExhibitionsApi.dfy** models the REST handlers' chains of early returns.
  - Handlers whose write goes to a controller outside this model are functions returning the `Response`.
  - The session and content-version handlers are methods. They first resolve every referenced id, then call the
    controllers above.
  - The realtime notifications are returned as values.
- **UrlCodec.dfy** is `java.net.URLEncoder.encode` / `URLDecoder.decode` with UTF-8. This is the
  application/x-www-form-urlencoded serialisation, with unreserved `a-zA-Z0-9.-*_`, space as `+` and everything
  else as `%HH` over its UTF-8 bytes. The decoder turns malformed UTF-8 into U+FFFD, as the JDK decoder does:
  one per maximal ill-formed subpart, except that after `ED` it reads any continuation byte on, so an encoded
  surrogate `ED A0..BF 80..BF` is one U+FFFD.
- **S3FileStorageProvider.dfy** covers the string work of the S3 storage provider: stored-file ids, the listing
  prefix, `__` hiding, the thumbnail key and `image/` gate, `translateObject`/`translateFolder`, and `init`'s checks.
  The S3 answers are parameters.

`setVisitorSessionVariables` is modelled as the code is written, not as its description reads.
- A non-blank submitted value for an existing name runs `updateValue` only when it *equals* the stored value, so a
  different value is never stored.
- A blank value skips the removal from the working list, so that variable is deleted.

`DifferingValueIgnored`, `BlankValueDeletes` and `ResubmitReportsChange` state these outcomes.

## Model

| member | source | states |
|---|---|---|
| Reconcile.PlanInvariant | src/main/kotlin/fi/metatavu/muisti/sessions/VisitorSessionController.kt:95-109 | every stored row of the owner is either matched or left over; every target is either matched by a kept row or created; a created id is never linked by a leftover row |
| Reconcile.PlanIdempotent | src/main/kotlin/fi/metatavu/muisti/sessions/VisitorSessionController.kt:93-112 | when the stored links already equal the targets as a multiset, the walk creates nothing and leaves nothing to delete |
| Reconcile.SetLinksOwned | src/main/kotlin/fi/metatavu/muisti/sessions/VisitorSessionController.kt:95-109 | the owner's rows afterwards are its surviving stored rows followed by the created ones |
| Reconcile.SetLinksByDeletes | src/main/kotlin/fi/metatavu/muisti/sessions/VisitorSessionController.kt:95-109 | creating the new rows first and deleting the leftovers afterwards, as the code does, yields the reconciled table |
| Reconcile.SetLinksTargets | src/main/kotlin/fi/metatavu/muisti/sessions/VisitorSessionController.kt:95-109 | afterwards the owner's linked ids equal the target list as a multiset, so the set of linked ids is the target set |
| Reconcile.SetLinksIdempotent | src/main/kotlin/fi/metatavu/muisti/sessions/VisitorSessionController.kt:93-112 | a second reconciliation with the same targets creates nothing, deletes nothing and leaves the table as it was |
| Reconcile.LinkedTargetKept | src/main/kotlin/fi/metatavu/muisti/sessions/VisitorSessionController.kt:98-104 | a target linked by exactly one stored row and listed once keeps that row; no row is created for it |
| Reconcile.SetLinksChanged | src/main/kotlin/fi/metatavu/muisti/sessions/VisitorSessionController.kt:101-107 | the walk has a create or a leftover delete if and only if the join table changes |
| Reconcile.SetLinksOthers | src/main/kotlin/fi/metatavu/muisti/sessions/VisitorSessionController.kt:95-109 | rows of any other owner are in the table afterwards exactly when they were before |
| Reconcile.SetLinksOtherOwner | src/main/kotlin/fi/metatavu/muisti/sessions/VisitorSessionController.kt:95-109 | every other owner's rows, in order, are the same before and after |
| Reconcile.OwnedBy | src/main/kotlin/fi/metatavu/muisti/sessions/VisitorSessionController.kt:95 | the rows of an owner are exactly the table's rows carrying that owner |
| Reconcile.Without | src/main/kotlin/fi/metatavu/muisti/sessions/VisitorSessionController.kt:109 | deleting rows by id keeps exactly the rows whose id is not deleted |
| Reconcile.FindTarget | src/main/kotlin/fi/metatavu/muisti/sessions/VisitorSessionController.kt:98 | `find` answers the first index linking the target, or none when no row links it |
| Sessions.FindSession | src/main/kotlin/fi/metatavu/muisti/sessions/VisitorSessionController.kt:48-50 | the session found carries the id; none is found exactly when no stored session has it |
| Sessions.FindVisitorByTag | src/main/kotlin/fi/metatavu/muisti/sessions/VisitorSessionController.kt:63-64 | the visitor found belongs to the exhibition and carries the tag, and no earlier visitor does; none exactly when no visitor does |
| Sessions.SessionsOfExhibition | src/main/kotlin/fi/metatavu/muisti/sessions/VisitorSessionController.kt:71 | exactly the stored sessions of the exhibition |
| Sessions.SessionsOfVisitor | src/main/kotlin/fi/metatavu/muisti/sessions/VisitorSessionController.kt:67-68 | exactly the stored sessions a link row joins to the visitor |
| Sessions.VariablesOf | src/main/kotlin/fi/metatavu/muisti/sessions/VisitorSessionController.kt:123 | exactly the variable rows of the session |
| Sessions.VisitorSessionController.constructor | src/main/kotlin/fi/metatavu/muisti/sessions/VisitorSessionController.kt:38-40 | an empty session store over the given visitors is valid |
| Sessions.VisitorSessionController.CreateVisitorSession | src/main/kotlin/fi/metatavu/muisti/sessions/VisitorSessionController.kt:38-40 | a session with a fresh id, the given exhibition and state, and the caller as creator and last modifier, is appended; nothing else changes |
| Sessions.VisitorSessionController.FindVisitorSessionById | src/main/kotlin/fi/metatavu/muisti/sessions/VisitorSessionController.kt:48-50 | the stored session with the id, or none exactly when there is none |
| Sessions.VisitorSessionController.ListVisitorSessions | src/main/kotlin/fi/metatavu/muisti/sessions/VisitorSessionController.kt:59-72 | without a tag: the exhibition's sessions; with a tag no visitor carries: nothing; otherwise every session linked to the first visitor of the exhibition carrying the tag, whatever the session's exhibition |
| Sessions.VisitorSessionController.UpdateVisitorSession | src/main/kotlin/fi/metatavu/muisti/sessions/VisitorSessionController.kt:82-84 | only the state and the last modifier of that session change, and the session is found updated |
| Sessions.VisitorSessionController.DeleteSessionVisitors | src/main/kotlin/fi/metatavu/muisti/sessions/VisitorSessionController.kt:109 | the loop deletes exactly the given rows' ids from the link table |
| Sessions.VisitorSessionController.LinkVisitors | src/main/kotlin/fi/metatavu/muisti/sessions/VisitorSessionController.kt:97-105 | the loop leaves the planned leftover rows in its working list, the link table grown by the planned creates, and the flag set exactly when something was created |
| Sessions.VisitorSessionController.SetVisitorSessionVisitors | src/main/kotlin/fi/metatavu/muisti/sessions/VisitorSessionController.kt:93-112 | the link table becomes the reconciled table; the flag is the walk's create-or-delete; the store stays valid; other tables are unchanged |
| Sessions.VisitorSessionController.DeleteSessionVariables | src/main/kotlin/fi/metatavu/muisti/sessions/VisitorSessionController.kt:143 | the loop deletes exactly the given rows' ids from the variable table |
| Sessions.VisitorSessionController.ApplyVariables | src/main/kotlin/fi/metatavu/muisti/sessions/VisitorSessionController.kt:124-140 | the loop leaves the planned leftover rows, the table grown by the planned creates, and the flag set exactly when a create or an updateValue ran |
| Sessions.VisitorSessionController.SetVisitorSessionVariables | src/main/kotlin/fi/metatavu/muisti/sessions/VisitorSessionController.kt:121-146 | the variable table becomes the planned table; the flag is true exactly for a create, an updateValue or a leftover delete; the store stays valid |
| Sessions.VisitorSessionController.DeleteVisitorSession | src/main/kotlin/fi/metatavu/muisti/sessions/VisitorSessionController.kt:153-157 | the session is gone; no link row and no variable row refers to it; every other row is kept; the store stays valid |
| Sessions.SetLinksValid | src/main/kotlin/fi/metatavu/muisti/sessions/VisitorSessionController.kt:93-112 | reconciling a stored session's links to stored visitors keeps link ids unique and every link pointing at stored entities |
| Sessions.SetVariablesValid | src/main/kotlin/fi/metatavu/muisti/sessions/VisitorSessionController.kt:121-146 | reconciling the variables of a stored session keeps variable ids unique and every variable owned by a stored session |
| Sessions.DeleteSessionValid | src/main/kotlin/fi/metatavu/muisti/sessions/VisitorSessionController.kt:153-157 | deleting the session's rows before the session keeps the store valid |
| Sessions.PlanVariablesFromExisting | src/main/kotlin/fi/metatavu/muisti/sessions/VisitorSessionController.kt:124-140 | the walk only updates or leaves over stored rows of the session |
| Sessions.PlanVariablesOutcome | src/main/kotlin/fi/metatavu/muisti/sessions/VisitorSessionController.kt:124-140 | with unique names: a leftover row is one no non-blank input names; an updated row is one resubmitted with its own value; an input is created exactly when no stored row has its name |
| Sessions.VariableRowFate | src/main/kotlin/fi/metatavu/muisti/sessions/VisitorSessionController.kt:131-143 | with unique names: a stored variable of the session survives exactly when some input names it with a non-blank value |
| Sessions.VariableCreated | src/main/kotlin/fi/metatavu/muisti/sessions/VisitorSessionController.kt:126-129 | an input whose name no stored variable has is stored with its value and a fresh id, and the flag is set |
| Sessions.NewNameCreated | src/main/kotlin/fi/metatavu/muisti/sessions/VisitorSessionController.kt:123-129 | for any inputs, duplicates included, an input whose name no stored row carries is planned for creation |
| Sessions.NamedAfter | src/main/kotlin/fi/metatavu/muisti/sessions/VisitorSessionController.kt:126-137 | with unique names: a stored name is never duplicated: any row of that name afterwards is the stored row |
| Sessions.DifferingValueIgnored | src/main/kotlin/fi/metatavu/muisti/sessions/VisitorSessionController.kt:131-137 | with unique names: a non-blank value that differs from the stored one is never written: the stored row survives unchanged and no updateValue runs |
| Sessions.BlankValueDeletes | src/main/kotlin/fi/metatavu/muisti/sessions/VisitorSessionController.kt:137-143 | with unique names: a blank value for a stored name deletes that variable, and the flag is set |
| Sessions.ResubmitReportsChange | src/main/kotlin/fi/metatavu/muisti/sessions/VisitorSessionController.kt:131-134 | with unique names: resubmitting the stored value keeps the row, runs updateValue and sets the flag |
| Sessions.VariablesChangedMeans | src/main/kotlin/fi/metatavu/muisti/sessions/VisitorSessionController.kt:121-146 | with unique names: the flag is true exactly when an input has a new name, a stored row is not settled, or a stored row is resubmitted with its own value |
| Sessions.SetVariablesByDeletes | src/main/kotlin/fi/metatavu/muisti/sessions/VisitorSessionController.kt:124-144 | creating and updating in the loop and deleting the leftovers afterwards yields the planned table |
| ContentVersionDao.FindVersion | src/main/kotlin/fi/metatavu/muisti/exhibitions/ContentVersionController.kt:78-80 | the version found carries the id; none is found exactly when no stored version has it |
| ContentVersionDao.VersionsOfExhibition | src/main/kotlin/fi/metatavu/muisti/persistence/dao/ContentVersionDAO.kt:48-57 | exactly the stored versions whose exhibition is the argument |
| ContentVersionDao.ReplaceVersion | src/main/kotlin/fi/metatavu/muisti/persistence/dao/ContentVersionDAO.kt:67-71 | the row with the id is replaced and every other row is kept in place |
| ContentVersionDao.WithoutVersion | src/main/kotlin/fi/metatavu/muisti/exhibitions/ContentVersionController.kt:142 | exactly the stored versions with another id |
| ContentVersionDao.ReplaceKeepsIds | src/main/kotlin/fi/metatavu/muisti/persistence/dao/ContentVersionDAO.kt:67-85 | an update keeps the set of stored ids |
| ContentVersionDao.ReplaceThenFind | src/main/kotlin/fi/metatavu/muisti/persistence/dao/ContentVersionDAO.kt:67-85 | after an update the id finds the updated version |
| ContentVersionDao.FindStored | src/main/kotlin/fi/metatavu/muisti/exhibitions/ContentVersionController.kt:78-80 | with the id as primary key, findById returns the stored row itself |
| ContentVersionDao.AppendFresh | src/main/kotlin/fi/metatavu/muisti/persistence/dao/ContentVersionDAO.kt:31-40 | persisting a row under an unused id keeps the id a primary key, adds exactly that id, and findById then returns the row |
| ContentVersionDao.WithoutIds | src/main/kotlin/fi/metatavu/muisti/exhibitions/ContentVersionController.kt:142 | a delete removes exactly the deleted id from the stored ids |
| ContentVersionDao.WithoutKeepsUnique | src/main/kotlin/fi/metatavu/muisti/exhibitions/ContentVersionController.kt:142 | a delete keeps the id a primary key |
| ContentVersionDao.ReplaceKeepsUnique | src/main/kotlin/fi/metatavu/muisti/persistence/dao/ContentVersionDAO.kt:67-85 | an update keeps the id a primary key |
| ContentVersionDao.IdBoundAbove | src/main/kotlin/fi/metatavu/muisti/exhibitions/ContentVersionController.kt:32-34 | an id at or above the bound of the stored ids is not stored, so the counter's next id is fresh |
| ContentVersionDao.IdBoundAppend | src/main/kotlin/fi/metatavu/muisti/persistence/dao/ContentVersionDAO.kt:31-40 | persisting a row raises the bound to just above its id, or keeps it |
| ContentVersionDao.IdBoundReplace | src/main/kotlin/fi/metatavu/muisti/persistence/dao/ContentVersionDAO.kt:67-85 | an update keeps the bound of the stored ids |
| ContentVersionDao.IdBoundWithout | src/main/kotlin/fi/metatavu/muisti/exhibitions/ContentVersionController.kt:142 | a delete does not raise the bound of the stored ids |
| ContentVersionDao.ContentVersionDAO.Create | src/main/kotlin/fi/metatavu/muisti/persistence/dao/ContentVersionDAO.kt:31-40 | an id already stored fails and writes nothing; otherwise the stored version carries exactly the given id, name, language, exhibition, creator and last modifier, and is appended |
| ContentVersionDao.ContentVersionDAO.FindById | src/main/kotlin/fi/metatavu/muisti/exhibitions/ContentVersionController.kt:78-80 | the stored version with the id, or none exactly when there is none |
| ContentVersionDao.ContentVersionDAO.ListByExhibition | src/main/kotlin/fi/metatavu/muisti/persistence/dao/ContentVersionDAO.kt:48-57 | exactly the stored versions of the exhibition |
| ContentVersionDao.ContentVersionDAO.UpdateName | src/main/kotlin/fi/metatavu/muisti/persistence/dao/ContentVersionDAO.kt:67-71 | only the name and the last modifier change, and the version is found updated |
| ContentVersionDao.ContentVersionDAO.UpdateLanguage | src/main/kotlin/fi/metatavu/muisti/persistence/dao/ContentVersionDAO.kt:81-85 | only the language and the last modifier change, and the version is found updated |
| ContentVersionDao.ContentVersionDAO.Delete | src/main/kotlin/fi/metatavu/muisti/exhibitions/ContentVersionController.kt:142 | the version is gone and every other version is kept |
| ContentVersionControl.VersionsOfRoom | src/main/kotlin/fi/metatavu/muisti/exhibitions/ContentVersionController.kt:93-95 | exactly the stored versions that a room link joins to the room |
| ContentVersionControl.CopyOf | src/main/kotlin/fi/metatavu/muisti/exhibitions/ContentVersionController.kt:45-59 | with no mapped id, no source exhibition, no source language, or a mapped id already stored, the copy fails with that error, in that order; otherwise the copy has the mapped id, `namePrefix + name`, the source's exhibition and language, and the caller as creator and last modifier |
| ContentVersionControl.ContentVersionController.constructor | src/main/kotlin/fi/metatavu/muisti/exhibitions/ContentVersionController.kt:32-34 | a controller over a store whose ids are unique and below the counter, with no room links, is valid |
| ContentVersionControl.ContentVersionController.CreateContentVersion | src/main/kotlin/fi/metatavu/muisti/exhibitions/ContentVersionController.kt:32-34 | a version with an id not yet stored and the caller as creator and last modifier is appended, and findById returns it; the room links are unchanged |
| ContentVersionControl.ContentVersionController.FindContentVersionById | src/main/kotlin/fi/metatavu/muisti/exhibitions/ContentVersionController.kt:78-80 | the stored version with the id, or none exactly when there is none |
| ContentVersionControl.ContentVersionController.ListContentVersions | src/main/kotlin/fi/metatavu/muisti/exhibitions/ContentVersionController.kt:88-98 | with a room: the versions linked to the room; without one: the versions of the exhibition |
| ContentVersionControl.ContentVersionController.DeleteVersionRooms | src/main/kotlin/fi/metatavu/muisti/exhibitions/ContentVersionController.kt:117 | the loop deletes exactly the given rows' ids from the room-link table |
| ContentVersionControl.ContentVersionController.LinkRooms | src/main/kotlin/fi/metatavu/muisti/exhibitions/ContentVersionController.kt:107-116 | the loop leaves the planned leftover rows in its working list and grows the table by the planned creates |
| ContentVersionControl.ContentVersionController.SetContentVersionRooms | src/main/kotlin/fi/metatavu/muisti/exhibitions/ContentVersionController.kt:106-118 | the room links become the reconciled table; the version's rooms equal the target list as a multiset; other versions' links are unchanged |
| ContentVersionControl.ContentVersionController.CopyContentVersion | src/main/kotlin/fi/metatavu/muisti/exhibitions/ContentVersionController.kt:45-70 | the result is CopyOf over the stored ids; a failure writes nothing; a copy gets an id not yet stored, is appended, is what findById returns, and is linked to the source's rooms (the same room ids, with multiplicity); every other version's links are untouched |
| ContentVersionControl.ContentVersionController.UpdateContentVersion | src/main/kotlin/fi/metatavu/muisti/exhibitions/ContentVersionController.kt:129-133 | only the name, the language and the last modifier change, and the version is found updated |
| ContentVersionControl.ContentVersionController.DeleteContentVersion | src/main/kotlin/fi/metatavu/muisti/exhibitions/ContentVersionController.kt:140-143 | the version is gone and so is every room link it owned; other links are kept |
| ContentVersionControl.RoomsAfterSet | src/main/kotlin/fi/metatavu/muisti/exhibitions/ContentVersionController.kt:106-118 | after the reconciliation the version's rooms are the target list with multiplicity; other versions' rooms are unchanged |
| ContentVersionControl.SetRoomsAgain | src/main/kotlin/fi/metatavu/muisti/exhibitions/ContentVersionController.kt:106-118 | repeating the reconciliation with the same rooms creates and deletes nothing |
| ContentVersionControl.RoomLinkKept | src/main/kotlin/fi/metatavu/muisti/exhibitions/ContentVersionController.kt:109-115 | a room linked once and listed once keeps its link row and gets no new one |
| Api.AntennaFields | src/main/kotlin/fi/metatavu/muisti/api/ExhibitionsApiImpl.kt:590-606 | the payload passes exactly when the name and reader id are non-empty and the device group and room, when given, resolve; otherwise BadRequest |
| Api.FindOwned | src/main/kotlin/fi/metatavu/muisti/api/ExhibitionsApiImpl.kt:405-419 | Ok exactly when both ids, the user, the exhibition and the child resolve and the child belongs to the path's exhibition; Unauthorized exactly with ids but no user; a child of another exhibition gives NotFound |
| Api.CreateExhibitionChain | src/main/kotlin/fi/metatavu/muisti/api/ExhibitionsApiImpl.kt:120-134 | a missing body or a blank name gives BadRequest before the user is checked; a missing user gives Unauthorized; Ok otherwise |
| Api.CreateAntennaChain | src/main/kotlin/fi/metatavu/muisti/api/ExhibitionsApiImpl.kt:583-620 | exhibition, then user, then name, reader id, group and room; the first failure is the response |
| Api.UpdateAntennaChain | src/main/kotlin/fi/metatavu/muisti/api/ExhibitionsApiImpl.kt:661-706 | an antenna of another exhibition gives NotFound before any payload field is validated |
| Api.UpdateDeviceGroupChain | src/main/kotlin/fi/metatavu/muisti/api/ExhibitionsApiImpl.kt:772-790 | a missing body gives BadRequest; an existing group under an unknown exhibition gives NotFound |
| Api.DeleteDeviceGroupChain | src/main/kotlin/fi/metatavu/muisti/api/ExhibitionsApiImpl.kt:792-800 | NoContent exactly when both ids, the user, the exhibition and the group resolve; an unknown exhibition gives NotFound |
| Api.CreateSessionChain | src/main/kotlin/fi/metatavu/muisti/api/ExhibitionsApiImpl.kt:285-303 | Ok exactly when the body, exhibition and user are present and every visitor id and every visited group id resolves; an unresolved id gives BadRequest |
| Api.UpdateSessionChain | src/main/kotlin/fi/metatavu/muisti/api/ExhibitionsApiImpl.kt:338-357 | Ok exactly when the body, both ids, the user, the exhibition and the session resolve and every visitor id and visited group id resolves |
| Api.CreateVersionChain | src/main/kotlin/fi/metatavu/muisti/api/ExhibitionsApiImpl.kt:918-934 | Ok exactly when the body, exhibition and user are present and every room id resolves; an unresolved room gives BadRequest |
| Api.UpdateVersionChain | src/main/kotlin/fi/metatavu/muisti/api/ExhibitionsApiImpl.kt:961-976 | Ok exactly when the body, both ids, the user, the exhibition and the version resolve and every room id resolves |
| Api.ResolveAll | src/main/kotlin/fi/metatavu/muisti/api/ExhibitionsApiImpl.kt:291-296 | the lookup loop succeeds exactly when every id resolves |
| Api.VersionOwners | src/main/kotlin/fi/metatavu/muisti/api/ExhibitionsApiImpl.kt:938-951 | each stored version id maps to that version's exhibition |
| Api.ExhibitionsApi.constructor | src/main/kotlin/fi/metatavu/muisti/api/ExhibitionsApiImpl.kt:120-134 | the handlers over valid controllers and a world whose exhibition ids are below the counter are valid |
| Api.ExhibitionsApi.CreateExhibition | src/main/kotlin/fi/metatavu/muisti/api/ExhibitionsApiImpl.kt:120-134 | the response is the chain's; only Ok adds a fresh exhibition, and any other response writes nothing |
| Api.ExhibitionsApi.FindContentVersion | src/main/kotlin/fi/metatavu/muisti/api/ExhibitionsApiImpl.kt:938-951 | Ok exactly when both ids and the user are present, the exhibition resolves, and the version resolves and belongs to the path's exhibition |
| Api.ExhibitionsApi.ListContentVersions | src/main/kotlin/fi/metatavu/muisti/api/ExhibitionsApiImpl.kt:953-959 | an unknown exhibition gives NotFound; an unresolved room lists the exhibition's versions; a room lists that room's versions |
| Api.ExhibitionsApi.WriteNewSession | src/main/kotlin/fi/metatavu/muisti/api/ExhibitionsApiImpl.kt:305-307 | the new session is appended with the caller as creator, and its linked visitors are the submitted ids with multiplicity |
| Api.ExhibitionsApi.CreateVisitorSession | src/main/kotlin/fi/metatavu/muisti/api/ExhibitionsApiImpl.kt:285-312 | the response is the chain's; a failure writes nothing and notifies nothing; Ok creates the session with the submitted visitors and notifies its creation |
| Api.ExhibitionsApi.WriteSessionUpdate | src/main/kotlin/fi/metatavu/muisti/api/ExhibitionsApiImpl.kt:361-363 | the session is updated, its visitors become the submitted ids, usersChanged is true exactly when the link table changed, and variablesChanged is the variable walk's flag |
| Api.ExhibitionsApi.UpdateVisitorSession | src/main/kotlin/fi/metatavu/muisti/api/ExhibitionsApiImpl.kt:338-369 | the response is the chain's; a failure writes nothing; Ok notifies the update with usersChanged from the visitor reconciliation and variablesChanged from the variable reconciliation |
| Api.ExhibitionsApi.WriteNewVersion | src/main/kotlin/fi/metatavu/muisti/api/ExhibitionsApiImpl.kt:933-934 | the new version is appended under an id not yet stored with the caller as creator, findById returns it, and it links exactly the submitted rooms |
| Api.ExhibitionsApi.CreateContentVersion | src/main/kotlin/fi/metatavu/muisti/api/ExhibitionsApiImpl.kt:918-936 | the response is the chain's; a failure writes nothing; Ok appends a version with the payload's fields under an id not yet stored, findById returns it, and it links exactly the payload's rooms |
| Api.ExhibitionsApi.UpdateContentVersion | src/main/kotlin/fi/metatavu/muisti/api/ExhibitionsApiImpl.kt:961-980 | the response is the chain's; a failure writes nothing; Ok updates the name and language and links the version to exactly the payload's rooms |
| UrlCodec.Utf8Char | src/main/kotlin/fi/metatavu/muisti/files/storage/S3FileStorageProvider.kt:297-299 | a character's UTF-8 form takes one to four bytes |
| UrlCodec.FittingPrefix | src/main/kotlin/fi/metatavu/muisti/files/storage/S3FileStorageProvider.kt:287-289 | the decoder consumes at least one byte and no more than the lead byte announces |
| UrlCodec.EncodedSurrogates | src/main/kotlin/fi/metatavu/muisti/files/storage/S3FileStorageProvider.kt:287-289 | an encoded surrogate is one U+FFFD whether whole, cut short by the end or by a non-continuation byte; a lone `ED` is one U+FFFD |
| UrlCodec.DecodeEscapedSurrogate | src/main/kotlin/fi/metatavu/muisti/files/storage/S3FileStorageProvider.kt:287-289 | `%ED%A0%80` decodes to one U+FFFD and `%ED%A0A` to U+FFFD then `A` |
| UrlCodec.Utf8RoundTrip | src/main/kotlin/fi/metatavu/muisti/files/storage/S3FileStorageProvider.kt:287-299 | decoding the UTF-8 bytes of a string gives the string back |
| UrlCodec.Utf8EncodeAppend | src/main/kotlin/fi/metatavu/muisti/files/storage/S3FileStorageProvider.kt:297-299 | UTF-8 encoding distributes over concatenation |
| UrlCodec.HexDigit | src/main/kotlin/fi/metatavu/muisti/files/storage/S3FileStorageProvider.kt:297-299 | the digit written for a value is a hex digit that reads back as that value |
| UrlCodec.Escapes | src/main/kotlin/fi/metatavu/muisti/files/storage/S3FileStorageProvider.kt:297-299 | each byte is written as three characters |
| UrlCodec.ParseEscape | src/main/kotlin/fi/metatavu/muisti/files/storage/S3FileStorageProvider.kt:287-289 | two hex digits read as their value; an accepted escape ends in a hex digit |
| UrlCodec.EscapeRun | src/main/kotlin/fi/metatavu/muisti/files/storage/S3FileStorageProvider.kt:287-289 | a run of escapes yields at least one byte, consumes three characters per byte, and stops where no further `%` follows |
| UrlCodec.Encode | src/main/kotlin/fi/metatavu/muisti/files/storage/S3FileStorageProvider.kt:297-299 | the output uses only unreserved characters, `+`, `%` and hex digits |
| UrlCodec.DecodeEncode | src/main/kotlin/fi/metatavu/muisti/files/storage/S3FileStorageProvider.kt:287-299 | decoding an encoded string gives it back |
| UrlCodec.EncodeInjective | src/main/kotlin/fi/metatavu/muisti/files/storage/S3FileStorageProvider.kt:297-299 | different keys get different stored-file ids |
| UrlCodec.EncodeUnreserved | src/main/kotlin/fi/metatavu/muisti/files/storage/S3FileStorageProvider.kt:297-299 | a string of unreserved characters is its own encoding |
| UrlCodec.MalformedEscapes | src/main/kotlin/fi/metatavu/muisti/files/storage/S3FileStorageProvider.kt:287-289 | a truncated escape, and a `-` sign before a non-zero digit, are rejected; `%+F` is accepted as the byte 0x0F |
| S3Storage.KeyOfStoredFileId | src/main/kotlin/fi/metatavu/muisti/files/storage/S3FileStorageProvider.kt:287-299 | the key of a key's stored-file id is that key |
| S3Storage.StripStart | src/main/kotlin/fi/metatavu/muisti/files/storage/S3FileStorageProvider.kt:108 | the result is a suffix of the input that does not start with `/`, and only slashes were dropped |
| S3Storage.StripEnd | src/main/kotlin/fi/metatavu/muisti/files/storage/S3FileStorageProvider.kt:108 | the result is a prefix of the input that does not end with `/`, and only slashes were dropped |
| S3Storage.StripSlashesShape | src/main/kotlin/fi/metatavu/muisti/files/storage/S3FileStorageProvider.kt:108 | the stripped folder is a slice of the folder with only slashes before and after it |
| S3Storage.StripSlashesEnds | src/main/kotlin/fi/metatavu/muisti/files/storage/S3FileStorageProvider.kt:108 | the stripped folder neither starts nor ends with `/` |
| S3Storage.RequestPrefixCases | src/main/kotlin/fi/metatavu/muisti/files/storage/S3FileStorageProvider.kt:108-116 | no prefix is sent exactly when the folder is all slashes (so the empty folder lists the root); otherwise the prefix is the stripped folder plus one `/` |
| S3Storage.RequestPrefixIdempotent | src/main/kotlin/fi/metatavu/muisti/files/storage/S3FileStorageProvider.kt:108-116 | listing the listing prefix asks for the same prefix as listing the folder |
| S3Storage.TranslateObject | src/main/kotlin/fi/metatavu/muisti/files/storage/S3FileStorageProvider.kt:308-323 | the id decodes to the key; the file name is the `x-file-name` metadata or else the key; the uri is prefix `/` key; a thumbnail uri exists exactly when `x-thumbnail-key` is present |
| S3Storage.TranslateFolder | src/main/kotlin/fi/metatavu/muisti/files/storage/S3FileStorageProvider.kt:331-338 | the id decodes to the key; the content type is `inode/directory`; the file name is the key with the slashes at both ends stripped |
| S3Storage.VisibleFolders | src/main/kotlin/fi/metatavu/muisti/files/storage/S3FileStorageProvider.kt:120-122 | exactly the common prefixes that do not start with `__` |
| S3Storage.VisibleObjects | src/main/kotlin/fi/metatavu/muisti/files/storage/S3FileStorageProvider.kt:124-126 | exactly the objects whose key does not start with `__` |
| S3Storage.ListedEntries | src/main/kotlin/fi/metatavu/muisti/files/storage/S3FileStorageProvider.kt:120-130 | every listed file is a visible folder or a visible object, translated |
| S3Storage.ListingShowsFolders | src/main/kotlin/fi/metatavu/muisti/files/storage/S3FileStorageProvider.kt:120-122 | every visible common prefix is listed |
| S3Storage.ListingShowsObjects | src/main/kotlin/fi/metatavu/muisti/files/storage/S3FileStorageProvider.kt:124-130 | every visible object is listed |
| S3Storage.ListedKeysVisible | src/main/kotlin/fi/metatavu/muisti/files/storage/S3FileStorageProvider.kt:120-126 | no listed file's key starts with `__` |
| S3Storage.ThumbnailKey | src/main/kotlin/fi/metatavu/muisti/files/storage/S3FileStorageProvider.kt:193 | a thumbnail key starts with `__` |
| S3Storage.ThumbnailsNotListed | src/main/kotlin/fi/metatavu/muisti/files/storage/S3FileStorageProvider.kt:125 | no listing contains a thumbnail |
| S3Storage.CreateThumbnail | src/main/kotlin/fi/metatavu/muisti/files/storage/S3FileStorageProvider.kt:256-262 | a content type not starting with `image/` gets no thumbnail; an image gets the scaler's output |
| S3Storage.UploadThumbnail | src/main/kotlin/fi/metatavu/muisti/files/storage/S3FileStorageProvider.kt:189-211 | a thumbnail is uploaded exactly for an image the scaler handled, under the hidden thumbnail key |
| S3Storage.UploadMeta | src/main/kotlin/fi/metatavu/muisti/files/storage/S3FileStorageProvider.kt:223-230 | the metadata carries the content type and the file name, and `x-thumbnail-key` exactly when a thumbnail was uploaded |
| S3Storage.StoredUpload | src/main/kotlin/fi/metatavu/muisti/files/storage/S3FileStorageProvider.kt:70-85 | a stored upload's id decodes to its key; its name, content type and uri come from the upload; it has a thumbnail uri exactly for a thumbnailable image |
| S3Storage.S3FileStorageProvider.Init | src/main/kotlin/fi/metatavu/muisti/files/storage/S3FileStorageProvider.kt:50-67 | the three values are stored; it fails on the first blank of region, bucket and prefix in that order, then on a missing bucket; it succeeds exactly when none applies |

## Left out

- S3 I/O: `store`, `find`, `update`, `delete`, temp files and the AWS client are not modelled. A listing's common prefixes and objects, the bucket check and the scaler's output are parameters. The image reading and scaling is not modelled.
- The null check in `delete` (S3FileStorageProvider.kt:163) reads inverted. It only guards an S3 call, so it is not modelled.
- Keycloak user provisioning and the MQTT realtime notifications are not modelled. The session handlers return the notification as a value.
- Visited-device-group reconciliation: the handlers resolve the visited group ids, but the reconciliation call itself has no body available and is not modelled.
- `IdMapper` is a partial map from old to new id. `CopyException` is the `CopyFailed` variant.
- UUIDs are natural numbers handed out by a counter. A fresh id is never a stored one. A copied version's id comes from the
  id map, and the counter moves above it. A mapped id that is already stored fails the copy, as the persist of a
  duplicate primary key does. Timestamps set by the JPA hooks are not modelled.
- Transactions and concurrency are not modelled. The multi-step session update is a plain sequence of writes.
- The writes of the RFID-antenna and device-group controllers are not modelled. Those handlers are modelled up to the response that reaches the write.
- Join rows always carry a target, as the DAO creates them. The null-target cases of `mapNotNull` and `?.id` are not modelled.
- UrlCodec.ParseEscape: only ASCII hex digits are accepted. The other Unicode digits that `Character.digit` takes are treated as illegal escapes.
- UrlCodec.Encode: Dafny characters are Unicode scalar values, so the encoding of lone surrogates is not modelled.
- Api.ExhibitionsApi.CreateVisitorSession: states the new session, its visitors as a multiset and the event. It does not state the exact link and variable tables; those are the controller's `SetVisitorSessionVisitors` and `SetVisitorSessionVariables` contracts.
- Api.ExhibitionsApi.UpdateVisitorSession: states the updated session, its visitors as a multiset and both flags. It does not state the exact tables, for the same reason.
- Api.ExhibitionsApi.WriteNewSession: states the new session and its visitors as a multiset, not the exact tables.
- Api.ExhibitionsApi.WriteSessionUpdate: states the updated session, its visitors and both flags, not the exact tables.
- Api.ExhibitionsApi.ListContentVersions: states membership of the listed versions, not their order.
- Sessions.VariableRowFate, Sessions.NamedAfter, Sessions.DifferingValueIgnored, Sessions.BlankValueDeletes,
  Sessions.ResubmitReportsChange, Sessions.VariablesChangedMeans and Sessions.PlanVariablesOutcome: each holds only when the
  stored names of the session and the submitted names are unique. The source does not enforce this and its walk can
  itself create a second row of a stored name. Duplicate names are outside these lemmas;
  `SetVisitorSessionVariables` and `SetVariables` still model them as written.
- Sessions.FindVisitorByTag: the visitor DAO query is not part of this model; it is taken to return the first match in table order.
- ContentVersionDao.ContentVersionDAO.UpdateName: requires the version to be stored, as the JPA entity passed in always is.
- ContentVersionDao.ContentVersionDAO.UpdateLanguage: requires the version to be stored, as the JPA entity passed in always is.
