# Verification model of the ticket catalogue

A Dafny model of the write side of the ticket catalogue: what administrators do to events, their
groups, slugs, offers and schedules; how collections are edited concurrently; the calendar and text
functions the catalogue rests on; and the batch jobs that fill and export it.

## How it is built

- `Calendar`, `ZonedCalendar`: civil dates, day numbers and `YYYY-MM-DD` strings in a zone. `Date.UTC`,
  the year and month of a day and its weekday follow ECMA-262, 6th edition, sections 20.3.1.2 to
  20.3.1.15 and 20.3.3.4.
- `Tidy`, `Letters`, `Title`, `GroupingKey`, `GroupingBackfill`: titles, grouping keys and their backfill.
- `Slug`, `GroupCreation`, `GroupClashes`: transliteration, the search for a free slug, the creation of
  event groups, and their slugs against those of events.
- `Catalogue`, `EventSteps`, `SessionSteps`, `OfferSteps`, `Archive`: the tables and, for each endpoint,
  the function that gives the tables it leaves and its answer. `AdminEvents.Tables` is the object whose
  methods change the tables statement by statement; each keeps the tables sound, is proved to be a step
  of the runs, and says what its caller may rely on. `EventOutcomes`, `SessionOutcomes` and
  `OfferOutcomes` give, for each endpoint, the condition of each answer and each field of the new rows.
- `Runs`: any sequence of endpoint calls, sales, refunds and passing time. `Groups`, `EventProofs`,
  `SessionProofs`, `OfferProofs`, `CancelRace`, `LateWrites`, `SalesProofs`, `ArchiveProofs` and
  `EndpointProofs` prove what every run keeps and what each endpoint promises.
- `Collections`: versioned PATCHes, status transitions, soft deletion, suggestions and the materializer,
  interleaved.
- `CsvExport`, `FormatBackfill`: the export with its cursor loop, and the capped link backfill.

Tables are maps; an endpoint is one step, except that the conditional write of `cancelSession`, the
write of a batch archive and the writes of a collection's status transition, of a suggestion and of the
materializer are also steps of their own, taken any time after their reads. `LateWrites` and
`SalesProofs` do the same for the other writes on sessions. New identifiers, the clock, the order in which a query returns ties,
and the answers of lookups outside the model (cities, locations, widget validation) are parameters.
The database refuses a write that breaks a modelled key: that is the error `Conflict`.

## What the code does not give

These were found while proving and are stated exactly, for all inputs:

- `addCalendarDaysISO` is the identity for 0 days only from the year 100 on and in zones from -12h to
  just below +12h (`ZonedCalendar.AddZeroIsIdentity`); a zone of +12h is a day off. The years 1 to 99
  are read as 1901 to 1999, which also breaks the addition law when the date in between is of those
  years (`ZonedCalendar.AddIsAction`).
- `normalizeEventTitle` is not idempotent; `Title.SettledAfterOne` says for which titles.
- The controller's slugs can end in a dash after the cut to 120 characters (`Slug.AdminTransliterateSettles`).
- `markDuplicate` and `mergeOffer` can close a cycle of duplicates (`EventProofs.StepKeepsForestIff`).
- `mergeOffer` is not a transaction: when a moved session meets another session of the target at the
  same time, the unique key stops it after the offer has moved, and the offer's sessions stay behind
  under the source (`OfferProofs.StepCoherentIff`). It may also oversell (`SessionProofs.MergeWithinCapacityIff`).
- `createOffer` demotes the primary offer before it validates (`OfferProofs.RejectedCreateDemotes`),
  `fullUpdateOffer` before a key may refuse it (`OfferProofs.RejectedUpdateDemotes`), and a deleted offer
  stays the primary one (`AdminEvents.Tables.DeleteOffer`).
- A sale between the read and the write of `cancelSession`, `stopSession` or `updateSession` is not noticed:
  it ends in a cancelled or oversold session (`CancelRace.SaleBeforeLateWrite`, `SalesProofs.StopAfterSale`,
  `SalesProofs.ResizeAfterSale`). `SalesProofs.SoldSessionIsLockedIff` and `SalesProofs.NeverOversoldIff`
  say exactly when.
- The other writes on sessions have no condition at all: one that was checked before a cancellation and
  arrives after it can undo it (`LateWrites.CancellationIsFinalIff`).
- Slugs of events are not checked against those of groups: an event can take the slug of a group, and the
  group-creation script keeps such a clash for ever (`GroupClashes.DistinctForeverIff`,
  `GroupClashes.CreatedEventTakesGroupSlug`).
- A batch of sessions with two slots at one time fails as a whole (`SessionProofs.BatchSucceedsIff`).
- The archive of collections is not final: a PATCH may set any status, a collection archived between the
  read and the write of `approve` is revived, and so is an archived suggestion by the next run of the
  suggestion service (`Collections.ArchiveIsFinalIff`, `Collections.ApproveAfterArchive`,
  `Collections.ArchivedSuggestionRevived`).
- The version of a collection does not determine its content: the suggestion service rewrites every live
  collection it finds that is neither active nor manual, also archived, rejected and draft ones, and leaves
  the version, so a PATCH can succeed on content its author never saw (`Collections.VersionFixesContentIff`,
  `Collections.PatchSeesItsContent`, `Collections.ArchivedSuggestionRevived`).
- The grouping backfill skips pending rows (`GroupingBackfill.PassIsCompleteIff`).
- A carriage return alone is not quoted in the CSV export (`CsvExport.RowsBack`).
- The batch archive accepts the source name TICKETSCLOUD, but the event sources of the schema are TC,
  TEPLOHOD and MANUAL, so such a request archives nothing (`ArchiveProofs.TicketscloudArchivesNothing`).

## Model

| member | source | states |
|---|---|---|
| `Calendar.CivilOfDayOfCivil` | packages/shared/src/moscow-calendar.ts:83 | day numbers and valid civil dates are in bijection: the date of a valid date's day number is that date (`Date.UTC` is MakeDay of ECMA-262) |
| `Calendar.DayOfCivilOfDay` | packages/shared/src/moscow-calendar.ts:83 | the other half: the day number of a day's date is that day, for every day number |
| `Calendar.CivilUnique` | packages/shared/src/moscow-calendar.ts:83 | two valid dates with the same day number are the same date |
| `Calendar.DaysFollowDates` | packages/shared/src/moscow-calendar.ts:83 | day 0 is 1970-01-01, and the date of the next day is the next date by the lengths of the months, with a 29 February in years divisible by 4 but not by 100 unless by 400 |
| `Calendar.MonthsCarryOver` | packages/shared/src/moscow-calendar.ts:83 | a day too many or too few moves the date on or back, and a month after December is one of the next year |
| `ZonedCalendar.PartsOfFormat` | packages/shared/src/moscow-calendar.ts:51-60 | parsing a printed date gives its year, month and day back |
| `ZonedCalendar.FormatInjective` | packages/shared/src/moscow-calendar.ts:51-60 | two days of the common era that print alike are the same day |
| `ZonedCalendar.TodayIs` | packages/shared/src/moscow-calendar.ts:51-74 | today is the date of the day that the local clock is in, and tomorrow the date of the day after |
| `ZonedCalendar.NotADate` | packages/shared/src/moscow-calendar.ts:51-104 | a text with a part missing or zero is left as it is and counts as a Sunday, and an invalid time prints as the empty text |
| `ZonedCalendar.AddToPrinted` | packages/shared/src/moscow-calendar.ts:77-85 | what adding days to a printed date gives in every zone: the date that many days after the one `Date.UTC` takes it for, moved by the days noon UTC moves in the zone, or nothing when no Date can hold it |
| `ZonedCalendar.AddIsAction` | packages/shared/src/moscow-calendar.ts:77-85 | adding a and then b equals adding a+b exactly when noon UTC keeps its day in the zone and the date in between is read back as itself (year 100 or later), or both ways leave the range of a Date; in every zone within a day of UTC |
| `ZonedCalendar.AddIsActionInRange` | packages/shared/src/moscow-calendar.ts:77-85 | the plain law in zones in [-12h, 12h), for dates from the year 100 on with the date in between in range |
| `ZonedCalendar.SubtractUndoesAdd` | packages/shared/src/moscow-calendar.ts:77-85 | adding -a undoes adding a, across month, year and leap-day boundaries, exactly when the zone is in [-12h, 12h), both dates are of the year 100 or later and the date in between can be held by a Date |
| `ZonedCalendar.AddZeroIsIdentity` | packages/shared/src/moscow-calendar.ts:77-85 | adding no days is the identity exactly for years from 100 on and zones in [-12h, 12h) |
| `ZonedCalendar.WeekdayAdvances` | packages/shared/src/moscow-calendar.ts:98-104 | the weekday advances modulo 7 under day addition exactly when the day reached is read back whole weeks from where it is; from the year 100 on, in exactly the zones in [-12h, 12h) |
| `ZonedCalendar.WeekdayFromSunday` | packages/shared/src/moscow-calendar.ts:98-104 | in zones in [-12h, 12h) the weekday of a printed date from the year 100 on is the number of days since Sunday 1970-01-04, modulo 7, for every date that a Date can hold |
| `ZonedCalendar.TomorrowIsTodayPlusOne` | packages/shared/src/moscow-calendar.ts:67-74 | `getTomorrowISO` is `addCalendarDaysISO(getTodayISO, 1)` exactly when the zone is in [-12h, 12h), today is of the year 100 or later and a Date can hold noon of tomorrow |
| `ZonedCalendar.NextWeekendIsNextSaturday` | packages/shared/src/moscow-calendar.ts:110-117 | for every instant, in zones in [-12h, 12h), the first date is the only Saturday in today..today+6 and the second is the next day |
| `ZonedCalendar.NextWeekendIff` | packages/shared/src/moscow-calendar.ts:110-117 | that holds for all seven days in exactly the zones in [-12h, 12h) |
| `ZonedCalendar.NextWeekendFromSaturday` | packages/shared/src/moscow-calendar.ts:110-117 | the first date is within a week of today and a whole number of weeks from Saturday 1970-01-03, and the second is the day after |
| `Tidy.CleanIsJoin` | packages/shared/src/normalize-title.ts:11 | collapsing white space and trimming gives the words joined by single spaces |
| `Tidy.CleanFixesTidy` | packages/shared/src/normalize-title.ts:11 | collapsing leaves a text alone exactly when its only white space is single spaces between words |
| `Title.NormalizeKeepsLetters` | packages/shared/src/normalize-title.ts:9-29 | lower-cased, the result equals the lower-cased collapsed input, and it has no white space left to collapse |
| `Title.SettledAfterTwo` | packages/shared/src/normalize-title.ts:9-29 | two normalisations reach a fixpoint, for every title |
| `Title.SettledAfterOne` | packages/shared/src/normalize-title.ts:17-26 | one normalisation suffices exactly when capitalising the first letter does not tip the title over 0.6 of capitals with a letter out of title case |
| `Title.NotIdempotent` | packages/shared/src/normalize-title.ts:18-26 | a title whose second normalisation differs from the first |
| `Title.CapitalsOfTitle` | packages/shared/src/normalize-title.ts:17-29 | when more than six letters of ten are capitals exactly the letters that begin a word are capitals afterwards; else only a small first letter is made a capital |
| `GroupingKey.ParseOfBuild` | packages/backend/scripts/backfill-event-grouping.ts:19-29 | reading a key from both ends recovers category, title, positive duration and age, whatever colons the title has |
| `GroupingKey.BuildIsInjective` | packages/backend/scripts/backfill-event-grouping.ts:19-29 | two keys are equal exactly when the fields agree up to the declared collapses |
| `GroupingKey.RecomputedKeyParses` | packages/backend/scripts/backfill-event-grouping.ts:75-103 | read from both ends, the key of a recomputed row gives its category, its normalised lower-cased title, its positive duration and its age; there is no key exactly when there is no title |
| `GroupingKey.RecomputedKeysAgreeIff` | packages/backend/scripts/backfill-event-grouping.ts:75-103 | two recomputed rows get one key exactly when these four agree |
| `GroupingKey.RecomputedIsSettled` | packages/backend/scripts/backfill-event-grouping.ts:75-103 | a row that was recomputed needs no further update and has the key it was found to need |
| `GroupingKey.RenormalizingKeepsKey` | packages/backend/scripts/backfill-event-grouping.ts:76-86 | storing the normalised title as the title never changes the key |
| `GroupingBackfill.Backfill` | packages/backend/scripts/backfill-event-grouping.ts:53-109 | the loop of batches computes the pass over the table and counts the rows it visits |
| `GroupingBackfill.PassIsCompleteIff` | packages/backend/scripts/backfill-event-grouping.ts:56-109 | the rows still pending after the pass although they would get a key are exactly those among the rows it jumps over; it jumps over none exactly when no row of a batch that another batch follows gets a key |
| `GroupingBackfill.SmallPassIsComplete` | packages/backend/scripts/backfill-event-grouping.ts:56-109 | a pass over at most a hundred pending rows leaves none pending that would get a key |
| `GroupingBackfill.TouchedInPlace` | packages/backend/scripts/backfill-event-grouping.ts:62-105 | a batch leaves each row as it is or, if it was pending, recomputed, in its place |
| `Slug.ScriptTransliterateSettles` | packages/backend/scripts/auto-create-event-groups.ts:13-28 | the script's transliteration yields words of a-z and 0-9 joined by single dashes and leaves such slugs alone |
| `Slug.ScriptSlugIsWords` | packages/backend/scripts/auto-create-event-groups.ts:13-34 | it is the romanised words of the text joined by single dashes |
| `Slug.AdminTransliterateSettles` | packages/backend/src/admin/admin-events.controller.ts:1879-1923 | the controller's transliteration yields a proper slug, and is idempotent, exactly when its cut to 120 characters does not fall after a dash |
| `Slug.AdminSlugIsWords` | packages/backend/src/admin/admin-events.controller.ts:1879-1923 | it is the romanised words of the text joined by single dashes, cut to 120 characters |
| `Slug.FirstFreeIsFirst` | packages/backend/src/admin/admin-events.controller.ts:1325-1346 | for every finite set of taken slugs the search ends on the first free candidate and on no other |
| `Slug.NumberedInjective` | packages/backend/src/admin/admin-events.controller.ts:1224-1238 | suffixed candidates are pairwise distinct |
| `EventProofs.SlugsStayUnique` | packages/backend/src/admin/admin-events.controller.ts:1086-1092 | slugs are pairwise distinct in every state of every run |
| `EventProofs.RenameTwice` | packages/backend/src/admin/admin-events.controller.ts:1327-1351 | renaming again with the same input changes nothing |
| `EventProofs.AllocatedSlugIsFirstFree` | packages/backend/src/admin/admin-events.controller.ts:1224-1238 | a copy and a renamed event get the first free candidate |
| `EventOutcomes.CreateAnswers` | packages/backend/src/admin/admin-events.controller.ts:1084-1120 | each answer of a creation, by the request and the tables |
| `EventOutcomes.CreateWrites` | packages/backend/src/admin/admin-events.controller.ts:1119-1196 | the new event field by field, and its offer if one is given |
| `EventOutcomes.CopyWrites` | packages/backend/src/admin/admin-events.controller.ts:1212-1316 | each answer of a copy, and the copy field by field: manual, inactive and in no group |
| `EventOutcomes.RenameWrites` | packages/backend/src/admin/admin-events.controller.ts:1327-1356 | each answer of a rename, which changes the slug of one event and nothing else |
| `Groups.MarkingKeepsForestIff` | packages/backend/src/admin/admin-events.controller.ts:900-915 | marking a duplicate keeps the pointers acyclic exactly when the target does not already lead to the event |
| `Groups.CrowningKeepsForest` | packages/backend/src/admin/admin-events.controller.ts:1061-1074 | making an event canonical keeps the pointers acyclic, whatever chains lead into its group |
| `Groups.RemovingKeepsForest` | packages/backend/src/admin/admin-events.controller.ts:1014-1042 | regrouping and leaving a group keep the pointers acyclic |
| `Groups.ForestIsRanked` | packages/backend/src/admin/admin-events.controller.ts:996-1077 | in an acyclic store every chain ends, and its length is a rank that falls along every pointer |
| `EventProofs.StepKeepsForestIff` | packages/backend/src/admin/admin-events.controller.ts:898-1077 | one step of any endpoint keeps the forest exactly when it does not mark an event as a duplicate of one that leads back to it |
| `EventProofs.ForestForever` | packages/backend/src/admin/admin-events.controller.ts:996-1077 | the pointers are a forest after every run that closes no cycle |
| `EventProofs.ForestWithoutMarks` | packages/backend/src/admin/admin-events.controller.ts:996-1077 | creation, copies, regrouping and crowning keep the pointers a forest over every run without `markDuplicate` and `mergeOffer` |
| `Groups.LeaderIsCanonical` | packages/backend/src/admin/admin-events.controller.ts:950-990 | whatever order the group query gives to ties, every live member is told of the oldest member without a pointer |
| `EventOutcomes.LeadsIffTold` | packages/backend/src/admin/admin-events.controller.ts:950-990 | a live member without a pointer is told to be canonical in every order of ties exactly when it is older than every other such member |
| `Groups.MakeCanonicalIsSeen` | packages/backend/src/admin/admin-events.controller.ts:1052-1077 | after `makeEventCanonical(e)` every live member is told e, and only e is canonical |
| `EventOutcomes.GroupAnswers` | packages/backend/src/admin/admin-events.controller.ts:950-990 | the members of the group shown for an event, and the canonical one of them |
| `EventOutcomes.CanonicalIs` | packages/backend/src/admin/admin-events.controller.ts:971-974 | the canonical event of a list of rows: the first that points to none, or else the earliest created |
| `EventOutcomes.MarkWrites` | packages/backend/src/admin/admin-events.controller.ts:900-915 | each answer of a marking, which writes the pointer of one event and nothing else |
| `EventOutcomes.RegroupWrites` | packages/backend/src/admin/admin-events.controller.ts:998-1023 | each answer of a regrouping, which writes the key and removes the pointer of one event |
| `EventOutcomes.CrownWrites` | packages/backend/src/admin/admin-events.controller.ts:1052-1077 | each answer of a crowning, and the pointer of every event afterwards |
| `EventProofs.LeaderStays` | packages/backend/src/admin/admin-events.controller.ts:1243-1280 | copies, renames, schedule and offer changes, archiving and the deletion of others never take the lead from an older canonical event |
| `EventProofs.StepKeepsLeaderIff` | packages/backend/src/admin/admin-events.controller.ts:898-1316 | one step of any endpoint keeps the canonical event at the head of its group exactly when it does not make it leave, give it a pointer, or bring in an event without pointer that is as old |
| `EventProofs.LeaderStaysIff` | packages/backend/src/admin/admin-events.controller.ts:898-1316 | it leads in every state of a run exactly when no step of the run does that |
| `EventProofs.CanonicalForever` | packages/backend/src/admin/admin-events.controller.ts:950-1077 | from `makeEventCanonical(e)` on, until a step takes the lead from it, `getEventGroup` names e to every live member |
| `AdminEvents.Tables.FindFreeSlug` | packages/backend/src/admin/admin-events.controller.ts:1333-1346 | the loop over base, base-2, ... terminates with the first free slug |
| `AdminEvents.Tables.CreateEvent` | packages/backend/src/admin/admin-events.controller.ts:1084-1196 | a creation that succeeds adds one event, whose only offer, if it came with one, is primary, and makes every later creation with that title fail; one that fails changes nothing; the tables stay sound |
| `AdminEvents.Tables.DuplicateEvent` | packages/backend/src/admin/admin-events.controller.ts:1212-1316 | the copy is one inactive event with the first free slug, in the same group, and duplicate pointers stay a forest |
| `AdminEvents.Tables.UpdateEventSlug` | packages/backend/src/admin/admin-events.controller.ts:1327-1356 | the event gets the first free slug, and the same request again changes nothing |
| `AdminEvents.Tables.MarkDuplicate` | packages/backend/src/admin/admin-events.controller.ts:900-915 | the pointers stay a forest exactly when the target does not lead back to the event |
| `AdminEvents.Tables.UpdateEventGrouping` | packages/backend/src/admin/admin-events.controller.ts:998-1023 | the event becomes a member of that group and of no other, other members stay, the pointers stay a forest, and the same request again changes nothing |
| `AdminEvents.Tables.ClearEventGrouping` | packages/backend/src/admin/admin-events.controller.ts:1030-1045 | the event is a member of no group, other members stay, and the pointers stay a forest |
| `AdminEvents.Tables.MakeEventCanonical` | packages/backend/src/admin/admin-events.controller.ts:1052-1077 | the event leads its group, and the pointers stay a forest |
| `AdminEvents.Tables.BulkUpdateEvents` | packages/backend/src/admin/admin-events.controller.ts:2447-2485 | the accumulated change is the one of each case; a soft delete also deactivates; the tables stay sound |
| `EventOutcomes.BulkWrites` | packages/backend/src/admin/admin-events.controller.ts:2447-2485 | each answer of a bulk update, and each event afterwards field by field |
| `AdminEvents.Tables.CreateSession` | packages/backend/src/admin/admin-events.controller.ts:1527-1571 | a new session is on sale, its row shows it as editable, and no other session of the event starts with it; a refusal changes nothing |
| `SessionOutcomes.CreateAnswers` | packages/backend/src/admin/admin-events.controller.ts:1527-1553 | each answer of a creation, by the event, the dates, the clock and the sessions there are |
| `SessionOutcomes.CreateWrites` | packages/backend/src/admin/admin-events.controller.ts:1554-1571 | the new session field by field: the times asked for, the capacity asked for or the default, on sale, without an offer |
| `AdminEvents.Tables.SelectSlots` | packages/backend/src/admin/admin-events.controller.ts:2009-2070 | the slots of a batch that are dates, not past and not taken, in order |
| `AdminEvents.Tables.InsertSlots` | packages/backend/src/admin/admin-events.controller.ts:2079-2117 | the rows of a batch inserted in one transaction, or none of them |
| `AdminEvents.Tables.BatchCreateSessions` | packages/backend/src/admin/admin-events.controller.ts:1982-2142 | new session table and answer of a batch |
| `SessionProofs.InsertExtends` | packages/backend/src/admin/admin-events.controller.ts:2079-2117 | inserted rows extend the table by exactly the slots' sessions |
| `SessionProofs.BatchSucceedsIff` | packages/backend/src/admin/admin-events.controller.ts:1982-2142 | a batch succeeds exactly when the wanted slots have new and pairwise distinct times; otherwise it creates nothing |
| `SessionOutcomes.WhySkipped` | packages/backend/src/admin/admin-events.controller.ts:2015-2066 | which slots of a batch are passed over as no date, as past, and as taken |
| `SessionOutcomes.WantedSlots` | packages/backend/src/admin/admin-events.controller.ts:2015-2066 | the others are wanted, in their order |
| `SessionOutcomes.BatchAnswers` | packages/backend/src/admin/admin-events.controller.ts:1982-2142 | each answer of a batch and its count |
| `AdminEvents.Tables.AssertSessionMutable` | packages/backend/src/admin/admin-events.controller.ts:1769-1791 | the check passes exactly when the row shown for the session has neither a lock nor a cancellation |
| `AdminEvents.Tables.UpdateSession` | packages/backend/src/admin/admin-events.controller.ts:1575-1615 | it succeeds only for a session whose row is shown as editable; start, end and capacity are then those of the request where it gives them, every other field and session stays, and a refused update changes nothing |
| `SessionOutcomes.UpdateAnswers` | packages/backend/src/admin/admin-events.controller.ts:1575-1607 | exactly when an update succeeds: the session is manual, not cancelled, not past and without sales, the dates are dates, the capacity is not below what is sold and the time is free; and each other answer |
| `SessionOutcomes.UpdateWrites` | packages/backend/src/admin/admin-events.controller.ts:1579-1608 | the start, end and capacity it stores, field by field from the request |
| `AdminEvents.Tables.StopSession` | packages/backend/src/admin/admin-events.controller.ts:1619-1635 | it succeeds exactly when the row is shown as editable, and then the session is cancelled with that time and reason over every run; else nothing changes |
| `SessionOutcomes.StopWrites` | packages/backend/src/admin/admin-events.controller.ts:1619-1635 | a stop writes the time and the reason as given, takes the session off sale and changes nothing else |
| `AdminEvents.Tables.CancelSession` | packages/backend/src/admin/admin-events.controller.ts:1639-1685 | it succeeds exactly when the row shows no lock, and then the session is cancelled over every run, with the time and reason of the first cancellation |
| `SessionOutcomes.CancelAnswers` | packages/backend/src/admin/admin-events.controller.ts:1640-1664 | each answer of a cancellation |
| `SessionOutcomes.CancelWrites` | packages/backend/src/admin/admin-events.controller.ts:1655-1685 | the first one writes the time and the reason, takes the session off sale and changes nothing else; a later one writes nothing |
| `SessionOutcomes.ReasonIsTrimmed` | packages/backend/src/admin/admin-events.controller.ts:1659 | the reason kept is the one given without the spaces around it; one without text is none |
| `AdminEvents.Tables.DeleteSession` | packages/backend/src/admin/admin-events.controller.ts:1689-1696 | it succeeds exactly when the row is shown as editable and no package item refers to it, and removes just that session |
| `SessionOutcomes.DeleteAnswers` | packages/backend/src/admin/admin-events.controller.ts:1689-1696 | each answer of a deletion, which removes exactly one session |
| `AdminEvents.Tables.UniqueIds` | packages/backend/src/admin/admin-events.controller.ts:828-832 | the first hundred distinct trimmed ids of a bulk request |
| `AdminEvents.Tables.BulkSessions` | packages/backend/src/admin/admin-events.controller.ts:827-893 | one result for each id, and exactly the requested sessions without an error are paused or resumed |
| `SessionProofs.DistinctIdsAre` | packages/backend/src/admin/admin-events.controller.ts:828 | the ids are distinct and are exactly the trimmed ones that are not empty |
| `SessionProofs.BulkChangesExactly` | packages/backend/src/admin/admin-events.controller.ts:837-892 | a bulk request pauses or resumes exactly the sessions it reports without an error |
| `SessionOutcomes.WhyLeftAlone` | packages/backend/src/admin/admin-events.controller.ts:837-880 | which sessions of a bulk request are left alone as not found, imported, cancelled, past and sold out |
| `SessionOutcomes.IdsInOrder` | packages/backend/src/admin/admin-events.controller.ts:828-832 | the ids come in the order of their first appearance, a hundred at most |
| `SessionProofs.RowShowsLock` | packages/backend/src/admin/admin-events.controller.ts:1793-1839 | a session may be changed exactly when its row shows neither a lock nor a cancellation, and cancelled exactly when it shows no lock |
| `SessionOutcomes.WhyLocked` | packages/backend/src/admin/admin-events.controller.ts:1769-1791 | each reason why a session may not be changed, in the order of the checks |
| `SessionOutcomes.RowShows` | packages/backend/src/admin/admin-events.controller.ts:1793-1839 | each field of the shown row, and its lock reason: sold before past before imported |
| `SessionProofs.CancellationIsFinal` | packages/backend/src/admin/admin-events.controller.ts:1573-1696 | a cancelled inactive session stays so over every run, is never deleted, and keeps its times, capacity, time of cancellation and reason |
| `SessionProofs.SoldSessionIsLocked` | packages/backend/src/admin/admin-events.controller.ts:1769-1791 | when only cancellations write late: while tickets stay sold a session is never deleted, and it is never cancelled, rescheduled or resized over a run exactly when it was cancelled before or no late cancellation of it arrives |
| `SalesProofs.LateWriteKeepsSoldIff` | packages/backend/src/admin/admin-events.controller.ts:1573-1635 | one late write keeps a sold session there, and as it is exactly when it is not an update that changes it or a stop |
| `SalesProofs.SoldSessionIsLockedIff` | packages/backend/src/admin/admin-events.controller.ts:1573-1696 | with late writes of all kinds: while tickets stay sold a session is never deleted, and it is not cancelled, rescheduled or resized in any state of a run exactly when no late cancellation, stop or update does it |
| `SalesProofs.StopAfterSale` | packages/backend/src/admin/admin-events.controller.ts:1619-1635 | a stop that passed every check, and would be refused after a sale, still cancels the session sold in between |
| `SessionProofs.NeverOversold` | packages/backend/src/admin/admin-events.controller.ts:1554-1606 | with guarded sales and capacities that are not negative, sold tickets stay within capacity in every state reachable without a merge |
| `SalesProofs.StepKeepsCapacityIff` | packages/backend/src/admin/admin-events.controller.ts:1527-2895 | one step keeps sales within capacities exactly when it is not a creation below zero that goes through or a merge to a smaller default |
| `SalesProofs.LateWriteKeepsCapacityIff` | packages/backend/src/admin/admin-events.controller.ts:1599-1612 | one late write keeps sales within capacities exactly when it is not an update to a capacity below what is sold |
| `SalesProofs.NeverOversoldIff` | packages/backend/src/admin/admin-events.controller.ts:1527-2895 | over runs that mix all of these, no session is oversold in any state exactly when no step of the run does it |
| `SalesProofs.ResizeAfterSale` | packages/backend/src/admin/admin-events.controller.ts:1575-1612 | an update that passed every check, and would be refused after a sale, still resizes the session below what was sold |
| `SessionProofs.MergeWithinCapacityIff` | packages/backend/src/admin/admin-events.controller.ts:2876-2880 | a merge keeps sales within capacities exactly when it does not go through or each moved session without its own capacity fits the target's default |
| `SessionProofs.KeysHold` | packages/backend/prisma/schema.prisma:720-751 | foreign keys and the unique key on event and start time hold in every state of every run |
| `CancelRace.AtMostOneCancels` | packages/backend/src/admin/admin-events.controller.ts:1640-1684 | of any interleaved cancellations of one session, split into read and conditional write, at most one takes effect |
| `CancelRace.FirstCancelWins` | packages/backend/src/admin/admin-events.controller.ts:1666-1673 | the time and reason of the first effective cancellation are the session's for ever |
| `CancelRace.AnswersTellTheWinner` | packages/backend/src/admin/admin-events.controller.ts:1675-1684 | over any interleaving of requests that read and write: for each session at most one answers with a cancelled row, whose time and reason the session then has; every other answers with the session it had read |
| `CancelRace.TablesAreOfARun` | packages/backend/src/admin/admin-events.controller.ts:1640-1684 | any interleaving of requests that read and write leaves the tables as a run of endpoints and late cancellations does |
| `CancelRace.AloneIsCancelSession` | packages/backend/src/admin/admin-events.controller.ts:1640-1684 | with nothing in between, the read and the write together are `cancelSession` |
| `CancelRace.SaleBeforeLateWrite` | packages/backend/src/admin/admin-events.controller.ts:1652-1673 | a request that passed every check on its read, and would be refused after a sale, still cancels the session that was sold in between |
| `LateWrites.LateWriteKeepsIff` | packages/backend/src/admin/admin-events.controller.ts:825-893 | a late write of an update, stop, pause, resume or deletion leaves a cancelled session alone exactly when it is not one that changes it |
| `LateWrites.CancellationIsFinalIff` | packages/backend/src/admin/admin-events.controller.ts:1573-1696 | with such writes a cancellation is final in every state of a run exactly when none of them changes the cancelled session |
| `Archive.WriteIsSafe` | packages/backend/src/admin/admin-events.controller.ts:505-514 | the write deactivates exactly the requested events that are live, active, of the source and without an active session after the start of the request |
| `Archive.WriteTakesOffSale` | packages/backend/src/admin/admin-events.controller.ts:505-514 | each event afterwards field by field: off sale exactly when requested, live, active, of the source and without an active session ahead |
| `Archive.SourcesOfRequests` | packages/backend/src/admin/admin-events.controller.ts:432-436 | which names of a source a request may give, in capitals or small letters |
| `Archive.EndedAndAhead` | packages/backend/src/admin/admin-events.controller.ts:462-483 | an event has ended when it has sessions and all started before the threshold |
| `Archive.PlanIsLimited` | packages/backend/src/admin/admin-events.controller.ts:438-504 | the threshold is the given days of 24 hours back, and more than a thousand events are refused |
| `Archive.Report` | packages/backend/src/admin/admin-events.controller.ts:529-550 | each requested id is reported once, archived or skipped, with its reason |
| `Archive.WhyReported` | packages/backend/src/admin/admin-events.controller.ts:529-550 | the reason with which an event is reported as skipped |
| `ArchiveProofs.ArchiveAfterAnything` | packages/backend/src/admin/admin-events.controller.ts:438-514 | whatever comes between query and write, no event with a future active session, of another source or not requested is deactivated |
| `ArchiveProofs.RequestArchivesIff` | packages/backend/src/admin/admin-events.controller.ts:432-514 | with anything between its read and its write a request deactivates an event exactly when it named Teplohod, its plan was small enough, its query had returned the event, ended before the threshold, and the event is still a candidate |
| `ArchiveProofs.TicketscloudArchivesNothing` | packages/backend/src/admin/admin-events.controller.ts:434-437 | a request for TICKETSCLOUD passes the endpoint's check and archives nothing |
| `AdminEvents.Tables.PlanArchive` | packages/backend/src/admin/admin-events.controller.ts:473-504 | the loop keeps the rows whose latest session started before the threshold, which are those whose sessions all did, and refuses more than a thousand |
| `AdminEvents.Tables.WriteArchive` | packages/backend/src/admin/admin-events.controller.ts:505-514 | only requested events of the source without an active session ahead of the write are changed |
| `Runs.ClockAdvances` | packages/backend/src/admin/admin-events.controller.ts:438-442 | time only moves forward over a run |
| `Runs.RefundUndoesSale` | packages/backend/prisma/schema.prisma:720-751 | a sale happens exactly within the capacity of the session or the default of its event, and its refund restores what is sold |
| `AdminEvents.Tables.CreateOffer` | packages/backend/src/admin/admin-events.controller.ts:2608-2683 | a new primary offer is the only primary one of its event, another leaves the primary offer alone, a refused primary one leaves none; offers of other events stay |
| `OfferOutcomes.CreateWrites` | packages/backend/src/admin/admin-events.controller.ts:2608-2683 | each answer of a creation, the new offer field by field, and which others are demoted |
| `AdminEvents.Tables.FullUpdateOffer` | packages/backend/src/admin/admin-events.controller.ts:2690-2739 | the offer becomes the only primary one, or not primary, or the primary offer stays, as asked; when a key refuses the update, the other offers are demoted all the same; no offer changes its event and other events keep their offers |
| `AdminEvents.Tables.UpdateOffer` | packages/backend/src/admin/admin-events.controller.ts:2746-2769 | the same, and the source of the offer stays |
| `OfferOutcomes.UpdateWrites` | packages/backend/src/admin/admin-events.controller.ts:2690-2769 | each answer of an update; the flag, status and source it stores are those of the request where it gives them |
| `AdminEvents.Tables.DeleteOffer` | packages/backend/src/admin/admin-events.controller.ts:2776-2801 | it succeeds exactly for a manual offer of the event, which is then deleted and disabled with its event, source and primary flag kept; its sessions are off sale, every other offer and session and the primary offers stay |
| `OfferOutcomes.DeleteWrites` | packages/backend/src/admin/admin-events.controller.ts:2776-2801 | each answer of a deletion, and every offer and session afterwards |
| `AdminEvents.Tables.CloneOffer` | packages/backend/src/admin/admin-events.controller.ts:2808-2844 | the event gets one more offer, and no primary offer changes |
| `OfferOutcomes.CloneWrites` | packages/backend/src/admin/admin-events.controller.ts:2808-2844 | each answer of a clone, which is a manual, hidden offer that is not primary |
| `AdminEvents.Tables.MergeOffer` | packages/backend/src/admin/admin-events.controller.ts:2852-2895 | it completes exactly when its checks pass and no session time clashes; the offer leaves its event for the target as soon as the checks pass; sessions stay under their offer's event exactly when it does not stop in between |
| `OfferOutcomes.MergeAnswers` | packages/backend/src/admin/admin-events.controller.ts:2852-2895 | each answer of a merge, and what one that a key stops leaves behind |
| `EndpointProofs.StepKeepsSound` | packages/backend/src/admin/admin-events.controller.ts:820-2895 | every endpoint, sale, refund and late write keeps the keys of the schema, one primary offer per event, and cancelled sessions off sale |
| `EndpointProofs.SoundForever` | packages/backend/src/admin/admin-events.controller.ts:820-2895 | so they hold in every state of every run |
| `OfferProofs.OnePrimaryForever` | packages/backend/src/admin/admin-events.controller.ts:2613-2758 | an event has at most one primary offer in every state of every run |
| `OfferProofs.RejectedCreateDemotes` | packages/backend/src/admin/admin-events.controller.ts:2613-2642 | a rejected creation leaves the offers alone exactly when it was not to be primary or there was no primary offer |
| `OfferProofs.RejectedUpdateDemotes` | packages/backend/src/admin/admin-events.controller.ts:2690-2739 | an update that a key refuses leaves the offers alone exactly when it was not to be primary or no other offer was; else the event has no primary offer left |
| `OfferProofs.ClashIff` | packages/backend/src/admin/admin-events.controller.ts:2876-2880 | the moved sessions violate the unique key exactly when one starts with a session of the target |
| `OfferProofs.MergeMovesExactly` | packages/backend/src/admin/admin-events.controller.ts:2870-2892 | a merge whose checks pass without a clash conserves offers and sessions, moves exactly the offer's sessions, and marks the source a duplicate exactly when it had no other offer |
| `OfferProofs.StepCoherentIff` | packages/backend/src/admin/admin-events.controller.ts:2870-2880 | one step keeps each session under its offer's event exactly when it is not a merge that clashes |
| `OfferProofs.CoherentForever` | packages/backend/src/admin/admin-events.controller.ts:2870-2880 | sessions are under their offer's event in every state of every run without a clashing merge |
| `OfferProofs.ConsistentForever` | packages/backend/prisma/schema.prisma:570-751 | all keys of the schema that are modelled hold in every state of every run |
| `Collections.VersionFixesContent` | packages/backend/src/admin/admin-collections.controller.ts:180-212 | over runs without a suggestion that finds the collection, equal versions mean equal content |
| `Collections.VersionFixesContentIff` | packages/backend/src/admin/admin-collections.controller.ts:176-295 | in any interleaving versions never fall, and a collection at its old version has its old content exactly when no suggestion was written over it or it had the values of the last one |
| `Collections.SuggestionKeepsContentIff` | packages/backend/src/collection/collection-suggestion.service.ts:61-107 | one suggestion keeps the content of a collection exactly when it is not written over it or the collection has its values |
| `Collections.PatchSeesItsContent` | packages/backend/src/admin/admin-collections.controller.ts:176-219 | a PATCH that succeeds finds the content its author saw, with the last suggestion written over it; it finds the same exactly when there was none or its values were there; and it changes exactly the fields it names |
| `Collections.AtMostOnePatchPerVersion` | packages/backend/src/admin/admin-collections.controller.ts:180-216 | of all PATCHes based on one version of a collection at most one succeeds |
| `Collections.PatchSucceedsIff` | packages/backend/src/admin/admin-collections.controller.ts:180-216 | a PATCH succeeds exactly when no PATCH of the same version came first and its slug is free; transitions, deletions and suggestions do not disturb it otherwise |
| `Collections.PatchWrites` | packages/backend/src/admin/admin-collections.controller.ts:176-219 | each answer of a PATCH, and status, source, visibility and version afterwards |
| `Collections.StoredIs` | packages/backend/src/admin/admin-collections.controller.ts:183-209 | which texts are stored as null when empty |
| `Collections.ApproveAfterArchive` | packages/backend/src/admin/admin-collections.controller.ts:250-295 | a transition checked before an archive and written after it revives the collection, although every later one is refused |
| `Collections.ArchiveIsFinalIff` | packages/backend/src/admin/admin-collections.controller.ts:176-295 | an archived collection is archived in every state of a run exactly when no step is a late transition to ACTIVE or REJECTED, a PATCH of its current version, with a free slug, to another status, or a suggestion with a free slug that finds it and is not kept off by the source MANUAL |
| `Collections.TransitionWrites` | packages/backend/src/admin/admin-collections.controller.ts:42-51 | each answer of approve, reject and archive by the status of the row, and the status, source and visibility they leave |
| `Collections.ArchivedWithoutStatus` | packages/backend/src/admin/admin-collections.controller.ts:176-295 | a run that writes no other status to the collection, and no suggestion, leaves it archived |
| `Collections.StatusWriters` | packages/backend/src/admin/admin-collections.controller.ts:176-295 | the steps that such a run leaves out: late approvals and rejections, PATCHes to another status, and suggestions over the collection |
| `Collections.ArchivedSuggestionRevived` | packages/backend/src/collection/collection-suggestion.service.ts:61-107 | an archived suggestion is found by the next run of the service and becomes a suggestion again under its version, so that a PATCH of an earlier reader succeeds on content its author did not see |
| `Collections.SuggestWrites` | packages/backend/src/collection/collection-suggestion.service.ts:61-107 | each answer of a suggestion: an active or manual collection is passed by, another one it finds is rewritten, and a hidden one is created for none |
| `Collections.SuggestedFields` | packages/backend/src/collection/collection-suggestion.service.ts:73-90 | each field of the collection it rewrites |
| `Collections.RevivalIsReachable` | packages/backend/src/collection/collection-suggestion.service.ts:61-107 | a concrete collection for which that happens |
| `Collections.SlugsStayUnique` | packages/backend/src/admin/admin-collections.controller.ts:135-219 | slugs of collections are pairwise distinct over every run |
| `Collections.EmptyDiffIffSame` | packages/backend/src/admin/admin-collections.controller.ts:392-399 | the preview shows no difference exactly when the two selections are the same list |
| `Collections.DiffMeans` | packages/backend/src/admin/admin-collections.controller.ts:392-399 | which events the preview lists as added, removed and moved, each in the order of its selection |
| `Collections.Endpoints.CreateCollection` | packages/backend/src/admin/admin-collections.controller.ts:135-172 | the new collection has a value or null in every field, those given unless empty, is the only one with its slug, the PATCH of whoever reads it succeeds unless its slug is taken, and all others stay |
| `Collections.CreateWrites` | packages/backend/src/admin/admin-collections.controller.ts:135-172 | each answer of a creation, and the rows afterwards |
| `Collections.CreatedField` | packages/backend/src/admin/admin-collections.controller.ts:138-170 | what a creation stores in each field that is given, empty or missing |
| `Collections.Endpoints.UpdateCollection` | packages/backend/src/admin/admin-collections.controller.ts:176-219 | the counted write is the conditional one; a PATCH that succeeds makes every other of its version fail |
| `Collections.Endpoints.FindExisting` | packages/backend/src/collection/collection-suggestion.service.ts:61-67 | the query returns some live collection of the city with the key or the slug, or none if there is none |
| `Collections.Endpoints.SuggestOne` | packages/backend/src/collection/collection-suggestion.service.ts:61-107 | one turn of the loop is the suggestion step, and answers what it created or updated |
| `Collections.Endpoints.GenerateSuggestions` | packages/backend/src/collection/collection-suggestion.service.ts:30-111 | the loop is a run of suggestions that leaves active, manual and deleted collections alone, makes every other it writes a hidden suggestion under its version, and creates as many rows as it counts |
| `Collections.Endpoints.DeleteCollection` | packages/backend/src/admin/admin-collections.controller.ts:223-233 | the collection is off sale with its status, and every PATCH of any collection gets the answer it would have got |
| `Collections.DeleteWrites` | packages/backend/src/admin/admin-collections.controller.ts:223-233 | each answer of a deletion, and every field afterwards |
| `Collections.Endpoints.Approve` | packages/backend/src/admin/admin-collections.controller.ts:250-264 | it succeeds exactly for a collection in DRAFT or SUGGESTED, which is then ACTIVE, visible and of the source ACTIVE; it cannot be approved again, and no PATCH is disturbed |
| `Collections.Endpoints.Reject` | packages/backend/src/admin/admin-collections.controller.ts:268-281 | it succeeds exactly for a collection in SUGGESTED or ACTIVE, which is then REJECTED, hidden and of its old source; from then on only a new suggestion or the archive is allowed, and no PATCH is disturbed |
| `Collections.Endpoints.ArchiveCollection` | packages/backend/src/admin/admin-collections.controller.ts:285-295 | it succeeds exactly for a collection that is not ARCHIVED, which is then ARCHIVED, hidden and of the source ARCHIVED; every transition read afterwards is refused, the collection stays archived over every run that writes no other status and no suggestion to it, and no PATCH is disturbed |
| `GroupCreation.Script.EnsureUniqueSlug` | packages/backend/scripts/auto-create-event-groups.ts:36-57 | the loop terminates with the base or the first free numbered stem, also when a numbered stem equals the base |
| `GroupCreation.Script.Run` | packages/backend/scripts/auto-create-event-groups.ts:59-128 | the groups after a run, and how many were created; nothing is counted when all rows are settled |
| `GroupCreation.RunSettles` | packages/backend/scripts/auto-create-event-groups.ts:85-125 | after a run each row's key has exactly one group with its title and cover, old groups keep key and slug, and a slug the run chose belongs to no event and no other group |
| `GroupCreation.BaseComesFromText` | packages/backend/scripts/auto-create-event-groups.ts:13-34 | the base of a slug is the transliterated normalised title, or the title without one, cut to 80 characters, or else `event-group` |
| `GroupCreation.NewGroup` | packages/backend/scripts/auto-create-event-groups.ts:85-125 | a row with a new key adds one group with its key, title, cover and the first free slug of its base |
| `GroupCreation.UpdatedGroup` | packages/backend/scripts/auto-create-event-groups.ts:85-125 | a row with a known key changes the title and cover of that group only |
| `GroupCreation.RunKeepsDistinctIff` | packages/backend/scripts/auto-create-event-groups.ts:85-125 | slugs are distinct across groups and events after a run exactly when they were before it |
| `GroupClashes.StepKeepsDistinctIff` | packages/backend/src/admin/admin-events.controller.ts:1086-1356 | a step of the administration keeps them distinct exactly when it gives no event the slug of a group |
| `GroupClashes.DistinctForeverIff` | packages/backend/src/admin/admin-events.controller.ts:1086-1356 | over runs that mix administration and script, slugs are distinct in every state exactly when no step gives an event the slug of a group |
| `GroupClashes.CreatedEventTakesGroupSlug` | packages/backend/src/admin/admin-events.controller.ts:1086-1092 | an event can be created with the slug of a group, and no run of the script mends it |
| `GroupClashes.ClashIsReachable` | packages/backend/src/admin/admin-events.controller.ts:1086-1092 | a concrete title and group for which that happens |
| `GroupCreation.SecondRunIsIdle` | packages/backend/scripts/auto-create-event-groups.ts:85-125 | a second run changes nothing, in whatever order the query returns its rows |
| `GroupCreation.OnlyRowKeys` | packages/backend/scripts/auto-create-event-groups.ts:85-125 | no group appears for a key that had none and is not a row's key |
| `CsvExport.FieldBack` | packages/backend/prisma/export-events-csv.ts:12-19 | a reader of RFC 4180 gets an escaped field back, and rejects exactly the fields with a carriage return outside quotes |
| `CsvExport.RowsBack` | packages/backend/prisma/export-events-csv.ts:55-73 | reading the printed rows gives back every row, null read as the empty string, exactly when no field has a carriage return outside quotes |
| `CsvExport.WriteBatch` | packages/backend/prisma/export-events-csv.ts:55-73 | the text and the number of rows of one batch |
| `CsvExport.Export` | packages/backend/prisma/export-events-csv.ts:43-78 | over a fixed ordered table the cursor loop ends having written each row once and in order |
| `CsvExport.ExportIsReadable` | packages/backend/prisma/export-events-csv.ts:25-78 | after the byte order mark the file reads back as the header and all rows in order, exactly when no field has a carriage return outside quotes |
| `FormatBackfill.PairKeyInjective` | packages/backend/scripts/backfill-format-subcategories.ts:82 | the string key of a pair determines the pair |
| `FormatBackfill.VerdictMeans` | packages/backend/scripts/backfill-format-subcategories.ts:101-116 | each candidate is in exactly one of existing, missing, over the limit and inserted, and when it is in which |
| `FormatBackfill.NeverAboveLimit` | packages/backend/scripts/backfill-format-subcategories.ts:108-114 | no event gets above the larger of its links and five; one at five or more gets none |
| `FormatBackfill.ChosenAreNew` | packages/backend/scripts/backfill-format-subcategories.ts:101-116 | the inserted pairs are distinct, were not linked and have a subcategory |
| `FormatBackfill.AppliedWithinLimit` | packages/backend/scripts/backfill-format-subcategories.ts:97-123 | the link table after a run has at most max(links before, 5) links for each event |
| `FormatBackfill.AppliedTwice` | packages/backend/scripts/backfill-format-subcategories.ts:97-123 | a second run over the same tags inserts nothing |
| `FormatBackfill.LinksAfterRun` | packages/backend/scripts/backfill-format-subcategories.ts:97-123 | the links afterwards are those before and the decided ones |
| `FormatBackfill.MapTags` | packages/backend/scripts/backfill-format-subcategories.ts:61-77 | the candidates of the tags that map to a subcategory |
| `FormatBackfill.CandidatesOfTags` | packages/backend/scripts/backfill-format-subcategories.ts:61-77 | each tag gives one candidate or none, by the mapping of its key |
| `FormatBackfill.KeyComesFromCode` | packages/backend/scripts/backfill-format-subcategories.ts:61-66 | the key of a tag is its trimmed lower-cased code, or its slug without one |
| `FormatBackfill.Deduplicate` | packages/backend/scripts/backfill-format-subcategories.ts:80-84 | the distinct pairs in order of first appearance |
| `FormatBackfill.UniqueIsDistinct` | packages/backend/scripts/backfill-format-subcategories.ts:80-84 | deduplication loses no candidate and keeps no pair twice |
| `FormatBackfill.CountLinks` | packages/backend/scripts/backfill-format-subcategories.ts:86-95 | the linked pairs and the number of links of each event |
| `FormatBackfill.Decide` | packages/backend/scripts/backfill-format-subcategories.ts:97-116 | the loop computes the inserted pairs and both counters of skipped ones |
| `FormatBackfill.Run` | packages/backend/scripts/backfill-format-subcategories.ts:38-123 | the links after the run and the numbers it reports |

## Left out

- ZonedCalendar.AddIsAction: asks that the dates met on the way are of the year 1 or later; an earlier year is printed without its era, so the printed string no longer names the date.
- ZonedCalendar.PartsOfFormat: `Number` is modelled on decimal numerals; signs, white space, exponents and hexadecimal in a date string count as not a number.
- ZonedCalendar.WeekdayAdvances: asks that the dates can be held by a Date and are of the year 1 or later.
- ZonedCalendar.NextWeekendIsNextSaturday: asks for zones in [-12h, 12h), since `ZonedCalendar.NextWeekendIff` shows it false in others, and that the week ahead can be held by a Date; a zone is a constant offset, and neither the IANA time zone database nor the tables of city zones are modelled.
- Title.NormalizeKeepsLetters: case exists for Latin a-z and Russian letters with ё only; other alphabets and one-to-many case maps are not modelled.
- Slug.ScriptTransliterateSettles: the same alphabet; letters outside it become dashes.
- GroupingKey.ParseOfBuild: the category is a name without a colon, as the names of the enumeration are.
- EventProofs.ForestForever: excludes runs in which `markDuplicate` or `mergeOffer` closes a cycle, which the code allows; `EventProofs.ForestWithoutMarks` covers the runs without them.
- EventProofs.LeaderStays: covers runs without regrouping and marking; `EventProofs.LeaderStaysIff` says exactly which steps take the lead.
- SessionProofs.SoldSessionIsLocked: the writes of all endpoints but `cancelSession` come with their reads, and refunds leave a ticket sold, since a session without sold tickets may be changed; `SalesProofs.SoldSessionIsLockedIff` covers late writes.
- SessionProofs.CancellationIsFinal: the writes of all endpoints but `cancelSession` come with their reads; `LateWrites.CancellationIsFinalIff` covers those that come later.
- SessionProofs.NeverOversold: asks that writes come with their reads, without merges and new negative capacities, which the endpoints do not check on creation; `SalesProofs.NeverOversoldIff` covers all of these, given that event defaults are not negative.
- GroupCreation.Script.Run: the aggregate query is a list of rows; the minima it takes under the database's collation are not modelled.
- CsvExport.RowsBack: of the characters that RFC 4180 keeps out of unquoted fields only commas, quotes and line ends are rejected, not other control characters or those beyond ASCII; conversion of values by `String` is not modelled.
- CsvExport.Export: the table is fixed and totally ordered during the export; rows updated meanwhile or sharing `updatedAt` are not modelled.
- FormatBackfill.MapTags: tag keys that name members of JavaScript's Object prototype are not modelled, nor are the counts of unmapped keys.
- Collections.VersionFixesContent: covers runs without a suggestion that finds the collection; `Collections.VersionFixesContentIff` covers all.
- Collections.Endpoints.GenerateSuggestions: which seeds have enough events, and the cached counts, are parameters of the model; the script that removes a tag from all collections is not part of this model.
- Content of events beyond source, slug, group, pointer, times, activity and default capacity; content of offers beyond event, source, primary flag and status, and their unique external ids.
- Sales are a step guarded by capacity and refunds a step; the checkout, payment and package services are not part of this model.
- The supplier cabinet, provider synchronisation, retention and refunds also write sessions and offers (`packages/backend/src/supplier/supplier.controller.ts`, `packages/backend/src/catalog/tc-sync.service.ts`); they are not part of this model, so the "exactly when" of a run speaks of runs of the modelled steps.
- Creation by synchronisation with ticket providers, overrides, tags, subcategories, reviews, quality and publish gates.
- HTTP, roles, validation decorators, audit log, mail, cache invalidation and dry-run output.
- Seeds, static content, front ends, `price-normalizer.ts`, `city-declension.ts` and other tables and display helpers would add only easy members.
