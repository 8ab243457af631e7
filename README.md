# Afero offline schedules and WiFi setup, modelled in Dafny

This project models two parts of the Afero Swift SDK.

**The offline-schedule engine** (`AferoSwiftSDK/Core/Models/OfflineSchedule.swift`).
- *Time specification.* A weekly trigger time is encoded in 4 bytes: flags, a day byte, hour and minute. The day byte holds either a single day number (Sunday = 1 … Saturday = 7) or a compact set of days (the 0x80 marker plus one bit per day).
- *Schedule event.* An event is a time specification plus attribute values. It serializes as the time-spec bytes followed by (16-bit little-endian id, fixed-width value) tuples in ascending id order, and `FromBytes` parses that form back.
- *Slot table.* A device's writable attributes 59002…59999 are event slots. The `OfflineSchedule` class keeps the table from slot id to event, a cached collated (sorted) view, and the schedule flags (`enabled` = bit 0).
- *Operations and storage.* The class adds, removes and replaces events, commits slot values to storage, and applies values coming back from storage. Each table change signals the set-membership deltas between the old and new collated views.
- *Migration.* UTC events are migrated to device-local time.

**The WiFi setup manager** (`AferoSwiftSDK/Core/WifiSetupManager.swift`).
- the setup error codes and their `NSError` round trip;
- the connection-media bit set;
- the live manager's state machine: not ready, ready, managing and completed, with the guards on scanning and association.

Modules:
- **Common:** the byte type, `Option`, and ascending id lists.
- **TimeSpecs:** the time-spec codec, the day bits, `==` and `<`.
- **Attributes:** attribute ids, data types, and the external value codec as a parameter.
- **ScheduleEvents:** event equality and order, the serializer, and `FromBytes` (a loop proved equal to a recursive parser).
- **Collation:** the default collator (sorting, index to slot id, deltas).
- **ScheduleTables:** the slot table as a value: allocation, lookup, commit values, storage updates, day queries and migration selection.
- **OfflineSchedules:** the `OfflineSchedule` class, whose methods are proved against step functions over (table, notification log). The lemmas about those step functions state what the source promises.
- **WifiSetup:** errors, media types, a pure transition function with its lemmas, and the `LiveWifiSetupManager` class.

Modelling choices:
- **`dayOfWeek`.** In the source it is the first element of an unordered set. It is modelled as the smallest day in the set, or Sunday when the set is empty.
- **Saturday's bit.** Saturday's day bit comes from a shift by −1, which Swift turns into a right shift. Here it is written out as bit 7 − dayNumber.
- **External conversions.** The value codec (`AttributeValue(type:slice:)` and `suited()` to Int16) is a parameter. Its round trip is the hypothesis `Lawful` on the lemmas that need it.
- **Logs instead of signals.** Signals become appended logs. Storage's answer to a write is an input, and so are the calendar conversion and whether a hub-library call throws.
- **Collated order.** The collated view and the index-to-slot lookup both use one stable sort of (slot id, event) pairs taken in ascending slot-id order. The source sorts twice and leaves the order of equal events unspecified.
- **Index to slot.** The index-to-slot lookup is used in its corrected form (see Findings).

## Model

| member | source | states |
|---|---|---|
| TimeSpecs.WithFlag | AferoSwiftSDK/Core/Models/OfflineSchedule.swift:1408-1489 | inserting a flag bit makes it present and removing it makes it absent; every other bit keeps its value |
| TimeSpecs.MakeTimeSpec | AferoSwiftSDK/Core/Models/OfflineSchedule.swift:937-947 | days, hour, minute and flags are kept; the compact day representation is used exactly when asked for or when there is more than one day |
| TimeSpecs.SingleDay | AferoSwiftSDK/Core/Models/OfflineSchedule.swift:950-965 | a one-day spec has exactly that day and the given hour and minute, is not compact, repeats / uses the device time zone exactly as requested, and sets no other flag bit |
| TimeSpecs.DayOfSpec | AferoSwiftSDK/Core/Models/OfflineSchedule.swift:855-867 | the spec's day is Sunday for an empty set, else a member of the set no later than any other member |
| TimeSpecs.DayBitIndex | AferoSwiftSDK/Core/Models/OfflineSchedule.swift:878-898 | a day's bit is bit 7 − dayNumber (Saturday's shift by −1 gives bit 0) and never the 0x80 marker |
| TimeSpecs.DayBitsDisjoint | AferoSwiftSDK/Core/Models/OfflineSchedule.swift:878-898 | two days share a bit exactly when they are the same day |
| TimeSpecs.DaysToByte | AferoSwiftSDK/Core/Models/OfflineSchedule.swift:896-898 | the compact day byte always carries the 0x80 marker |
| TimeSpecs.ByteToDays | AferoSwiftSDK/Core/Models/OfflineSchedule.swift:878-893 | nil exactly when the 0x80 bit is clear; otherwise the set of days whose bits are set |
| TimeSpecs.DaysRoundTrip | AferoSwiftSDK/Core/Models/OfflineSchedule.swift:878-898 | decoding the compact byte of any day set gives back that set |
| TimeSpecs.DayByte | AferoSwiftSDK/Core/Models/OfflineSchedule.swift:1500-1510 | the day byte has the 0x80 marker exactly when the spec uses the compact representation |
| TimeSpecs.Encode | AferoSwiftSDK/Core/Models/OfflineSchedule.swift:1500-1526 | the encoding is exactly `SerializedSize` (4) bytes |
| TimeSpecs.Decode | AferoSwiftSDK/Core/Models/OfflineSchedule.swift:1528-1571 | nil exactly when there are under 4 bytes, a single-day byte outside 1…7, hour > 23 or minute > 59; otherwise flags, hour and minute come from their bytes, days from the compact bits or the day number, and the result is compact |
| TimeSpecs.Trichotomy | AferoSwiftSDK/Core/Models/OfflineSchedule.swift:969-1011 | for any two specs exactly one of `<`, `>` and `==` holds (lexicographic on day, hour, minute, flags) |
| TimeSpecs.LessTransitive | AferoSwiftSDK/Core/Models/OfflineSchedule.swift:985-1011 | `<` is transitive |
| TimeSpecs.NotLessTransitiveSpec | AferoSwiftSDK/Core/Models/OfflineSchedule.swift:985-1011 | "not less than" is transitive, so sorting by `<` is well defined |
| TimeSpecs.LessIrreflexive | AferoSwiftSDK/Core/Models/OfflineSchedule.swift:969-1011 | no spec is `<` itself, and every spec is `==` itself |
| TimeSpecs.RoundTrip | AferoSwiftSDK/Core/Models/OfflineSchedule.swift:1500-1571 | for hour ≤ 23 and minute ≤ 59 decoding the encoding succeeds and is `==` the input; the result is compact; it keeps the day set of a compact input and holds just the day of a single-day input |
| TimeSpecs.ReencodeSingleDayIsCompact | AferoSwiftSDK/Core/Models/OfflineSchedule.swift:1548-1555 | re-encoding a decoded single-day spec emits the compact day byte, which differs from the original byte |
| ScheduleEvents.EventOrder | AferoSwiftSDK/Core/Models/OfflineSchedule.swift:1581-1587 | event `==` (time spec and attributes) is an equivalence; equal events are unordered; event `<` is transitive and unordered events have `==` time specs |
| ScheduleEvents.LittleEndianRoundTrip | AferoSwiftSDK/Core/Models/OfflineSchedule.swift:1746-1747 | reading the two little-endian bytes written for an id gives back the id |
| ScheduleEvents.SortedIdsSpec | AferoSwiftSDK/Core/Models/OfflineSchedule.swift:1657-1671 | the serialized ids are the event's attribute ids, each once, in ascending order |
| ScheduleEvents.SerializedTypes | AferoSwiftSDK/Core/Models/OfflineSchedule.swift:1657-1671 | the serialized type map covers exactly the event's attribute ids and gives each its value's data type; for fixed-width values it is a map the event decodes under, so `SerializeRoundTrip` applies to it |
| ScheduleEvents.FromBytes | AferoSwiftSDK/Core/Models/OfflineSchedule.swift:1695-1795 | the parsing loop returns what the recursive parser defines: an event with its byte count, incomplete, an error code, or a trap |
| ScheduleEvents.ParseTuplesShape | AferoSwiftSDK/Core/Models/OfflineSchedule.swift:1741-1792 | a successful tuple loop consumes every byte, keeps the attributes read so far and adds at least one more when bytes remain; its errors are only −1007, −1008 and −1011 |
| ScheduleEvents.ParseEventOutcomes | AferoSwiftSDK/Core/Models/OfflineSchedule.swift:1695-1795 | a parse succeeds only by consuming every byte with at least one attribute; under 7 bytes is incomplete; a bad time spec is −1010; for the first tuple an id without a type is −1007, a type without a fixed size is −1008, a value running past the end is incomplete, and a value the codec refuses is −1011; no other codes occur |
| ScheduleEvents.TruncatedSerialization | AferoSwiftSDK/Core/Models/OfflineSchedule.swift:1712-1776 | every prefix of an event's serialization (valid hour and minute, known fixed-width types) is incomplete, traps on a half id, or parses to an `==` time spec and some of the event's own attributes; it never throws |
| ScheduleEvents.TrailingByteTraps | AferoSwiftSDK/Core/Models/OfflineSchedule.swift:1746-1747 | one byte left after a complete tuple makes the id slice run past the end and trap |
| ScheduleEvents.TuplesRoundTrip | AferoSwiftSDK/Core/Models/OfflineSchedule.swift:1741-1794 | parsing serialized tuples reads exactly those attributes and consumes every byte |
| ScheduleEvents.SerializeRoundTrip | AferoSwiftSDK/Core/Models/OfflineSchedule.swift:1657-1795 | for an event with at least one attribute, valid hour and minute and known fixed-width types, `FromBytes(serialized)` succeeds, consumes every byte, and returns the same attributes and an `==` time spec |
| ScheduleEvents.SerializeEmpty | AferoSwiftSDK/Core/Models/OfflineSchedule.swift:1657-1671 | an event with no attributes serializes to its 4 time-spec bytes, which parse as incomplete |
| ScheduleEvents.SerializeExample | AferoSwiftSDK/Core/Models/OfflineSchedule.swift:1591-1596 | Monday 14:30, repeating, device time, attribute 100 = true serializes to 03 02 0E 1E 64 00 01 |
| Collation.NotLessTransitive | AferoSwiftSDK/Core/Models/OfflineSchedule.swift:123 | the collator's ordering predicate has a transitive complement |
| Collation.SortSlotsSpec | AferoSwiftSDK/Core/Models/OfflineSchedule.swift:150-152 | sorting yields a sorted permutation of its input |
| Collation.CollatedSlotsSpec | AferoSwiftSDK/Core/Models/OfflineSchedule.swift:150-152 | the collated slots are sorted, one per occupied slot, and are exactly the table's entries |
| Collation.CollatedEventsSpec | AferoSwiftSDK/Core/Models/OfflineSchedule.swift:150-152 | the collated view is sorted, as long as the table, and holds exactly the table's events |
| Collation.AttributeIdForIndex | AferoSwiftSDK/Core/Models/OfflineSchedule.swift:109-121 | (corrected) a slot id is found exactly for an index within the collated view |
| Collation.AttributeIdForIndexSpec | AferoSwiftSDK/Core/Models/OfflineSchedule.swift:109-121 | an index has a slot exactly when it is below the number of events, and that slot holds the event at that index |
| Collation.AttributeIdForIndexAsWritten | AferoSwiftSDK/Core/Models/OfflineSchedule.swift:109-121 | (as written, bound checked against the slot count) whenever it finds a slot it agrees with the corrected lookup |
| Collation.AttributeIdForIndexTraps | AferoSwiftSDK/Core/Models/OfflineSchedule.swift:111-119 | with 2 slots and 1 event, index 1 passes the guard and traps; the corrected lookup returns none |
| Collation.ComputeDeltas | AferoSwiftSDK/Core/Models/OfflineSchedule.swift:125-148 | deletions are indices of the old view and insertions indices of the new view |
| Collation.DeltasSpec | AferoSwiftSDK/Core/Models/OfflineSchedule.swift:125-148 | an old index is deleted exactly when no new event `==` its event |
| Collation.DeltasSwap | AferoSwiftSDK/Core/Models/OfflineSchedule.swift:125-148 | swapping the views swaps deletions and insertions, so insertions are exactly the new indices absent from the old view |
| Collation.DeltasOfEqualViews | AferoSwiftSDK/Core/Models/OfflineSchedule.swift:125-148 | element-wise equal views give two empty sets |
| Collation.DeltasExample | AferoSwiftSDK/Core/Models/OfflineSchedule.swift:125-148 | replacing the second of two events yields deletion {1} and insertion {1} |
| ScheduleTables.SlotIdsSpec | AferoSwiftSDK/Core/Models/OfflineSchedule.swift:620-627 | slot ids are exactly the writable ids within 59002…59999 (both inclusions), ascending; schedules are supported exactly when there is one |
| ScheduleTables.LowestUnused | AferoSwiftSDK/Core/Models/OfflineSchedule.swift:629-631 | none exactly when every slot is used; otherwise an unused slot no greater than any unused slot |
| ScheduleTables.SlotOfSpec | AferoSwiftSDK/Core/Models/OfflineSchedule.swift:181-183 | a slot is found exactly when the table holds an `==` event, and the slot found holds one |
| ScheduleTables.EventIndexSpec | AferoSwiftSDK/Core/Models/OfflineSchedule.swift:172-179 | a position is found exactly when the table holds an `==` event; it is the first such position in the collated view |
| ScheduleTables.InstancesFor | AferoSwiftSDK/Core/Models/OfflineSchedule.swift:482-496 | one instance per id, in order, holding the slot's serialized event or `[0x00]` for an empty slot |
| ScheduleTables.SucceededOnly | AferoSwiftSDK/Core/Models/OfflineSchedule.swift:498-509 | keeps exactly the instances whose id storage reports as written |
| ScheduleTables.SlotUpdate | AferoSwiftSDK/Core/Models/OfflineSchedule.swift:590-612 | an inbound slot value changes at most that slot |
| ScheduleTables.CommitReadsBack | AferoSwiftSDK/Core/Models/OfflineSchedule.swift:474-612 | the value committed for a slot, read back as a storage update, restores an `==` event, or empties the slot for `[0x00]` |
| ScheduleTables.FilterResultsSpec | AferoSwiftSDK/Core/Models/OfflineSchedule.swift:1135-1147 | each result names a slot, its event and its collated position, and the event matches; every matching slot and every matching collated position has a result; results are in ascending collated order |
| ScheduleTables.EventsOf | AferoSwiftSDK/Core/Models/OfflineSchedule.swift:1092-1096 | the events of the filter results, in the same order |
| ScheduleTables.DaysPartition | AferoSwiftSDK/Core/Models/OfflineSchedule.swift:1041-1058 | every day is available or unavailable, not both; it is unavailable exactly when it has at least capacity / 7 events |
| ScheduleTables.DayCountsSum | AferoSwiftSDK/Core/Models/OfflineSchedule.swift:1061-1068 | the seven per-day counts add up to the number of events |
| ScheduleTables.AsDeviceLocalTimeSpecSpec | AferoSwiftSDK/Core/Models/OfflineSchedule.swift:1841-1880 | a device-local spec is returned unchanged; otherwise conversion fails exactly when the calendar step fails, and the result is a single-day, non-compact spec at the converted time whose flags are the old flags with `usesDeviceTimeZone` added (so `repeats` is kept) |
| ScheduleTables.AsDeviceLocalTimeEvent | AferoSwiftSDK/Core/Models/OfflineSchedule.swift:1918-1924 | the converted event keeps its attributes; a device-local event is returned unchanged |
| ScheduleTables.AsDeviceLocalIdempotent | AferoSwiftSDK/Core/Models/OfflineSchedule.swift:1918-1924 | a converted event uses the device time zone, and converting it again changes nothing |
| ScheduleTables.MigrationBatchSpec | AferoSwiftSDK/Core/Models/OfflineSchedule.swift:1949-1978 | the batch is the first min(maxCount, #UTC events) UTC events of the collated view, at ascending collated positions; every UTC event is in the batch or after all of it |
| OfflineSchedules.WithEnabled | AferoSwiftSDK/Core/Models/OfflineSchedule.swift:737-753 | the enabled bit becomes the requested value and every other flag bit is kept |
| OfflineSchedules.CommitOutcome | AferoSwiftSDK/Core/Models/OfflineSchedule.swift:474-510 | no ids resolve to no instances; a rejected write rejects; otherwise exactly the instances of ids reported as written |
| OfflineSchedules.AddOneSpec | AferoSwiftSDK/Core/Models/OfflineSchedule.swift:251-278 | an `==` event already held changes nothing and resolves to {}; no free slot rejects; otherwise the event takes the lowest free slot, other slots are unchanged, one change is signalled, and the result is that slot alone |
| OfflineSchedules.AddAllSpec | AferoSwiftSDK/Core/Models/OfflineSchedule.swift:288-323 | a batch of adds never overwrites an occupied slot; every reported id was free and is now occupied |
| OfflineSchedules.ReplaceOneSpec | AferoSwiftSDK/Core/Models/OfflineSchedule.swift:336-364 | rejects exactly when no slot holds the old event; an `==` replacement changes nothing; otherwise the new event overwrites that slot, with no slot allocated or freed |
| OfflineSchedules.ReplaceAllSpec | AferoSwiftSDK/Core/Models/OfflineSchedule.swift:385-413 | a batch of replacements keeps the set of occupied slots; results keep their order and name occupied slots |
| OfflineSchedules.RemoveAllSpec | AferoSwiftSDK/Core/Models/OfflineSchedule.swift:693-695 | removing listed slots empties exactly those and leaves every other slot alone |
| OfflineSchedules.RemoveMatchingSpec | AferoSwiftSDK/Core/Models/OfflineSchedule.swift:1244-1250 | removing by predicate empties exactly the slots whose event matches |
| OfflineSchedules.PrimeAllSpec | AferoSwiftSDK/Core/Models/OfflineSchedule.swift:555-560 | after priming, each slot holds its parsed stored event, is emptied by an incomplete value, or is left by a missing or malformed value; non-slot keys are untouched |
| OfflineSchedules.ConvertAll | AferoSwiftSDK/Core/Models/OfflineSchedule.swift:1974-1981 | pairs each event with its converted form, or fails exactly when some conversion fails |
| OfflineSchedules.IdsAt | AferoSwiftSDK/Core/Models/OfflineSchedule.swift:446-468 | positions map to their slot ids in order; none if any position has no slot |
| OfflineSchedules.OfflineSchedule.Create | AferoSwiftSDK/Core/Models/OfflineSchedule.swift:539-553 | no schedule exactly when no writable slot exists; otherwise the flags come from storage and the table is primed from storage |
| OfflineSchedules.OfflineSchedule.PrimeStorage | AferoSwiftSDK/Core/Models/OfflineSchedule.swift:555-560 | the loop applies each slot's stored value in slot order, as `PrimeAll` |
| OfflineSchedules.OfflineSchedule.Collated | AferoSwiftSDK/Core/Models/OfflineSchedule.swift:663-676 | the getter returns the collated view and leaves it cached; nothing else changes |
| OfflineSchedules.OfflineSchedule.SetEvent | AferoSwiftSDK/Core/Models/OfflineSchedule.swift:679-695 | the slot is set or cleared, the cache stays consistent, and the deltas between old and new views are signalled |
| OfflineSchedules.OfflineSchedule.EventAt | AferoSwiftSDK/Core/Models/OfflineSchedule.swift:698-700 | the event at a collated position; nothing else changes |
| OfflineSchedules.OfflineSchedule.StorageUpdated | AferoSwiftSDK/Core/Models/OfflineSchedule.swift:590-612 | the flags attribute sets the flags (0 if unreadable) and signals enabled; a slot value sets, clears or (if malformed) leaves the slot |
| OfflineSchedules.OfflineSchedule.CommitEvents | AferoSwiftSDK/Core/Models/OfflineSchedule.swift:474-510 | writes the slots' values once (nothing for no ids) and resolves as `CommitOutcome`; the table is unchanged |
| OfflineSchedules.OfflineSchedule.CommitEventsAt | AferoSwiftSDK/Core/Models/OfflineSchedule.swift:446-468 | no positions resolve to nothing; a position with no slot rejects without writing; otherwise commits the positions' slots |
| OfflineSchedules.OfflineSchedule.AddScheduleEvent | AferoSwiftSDK/Core/Models/OfflineSchedule.swift:251-278 | the table and signals follow `AddOne`; with commit, an added slot is written and the promise resolves to {} |
| OfflineSchedules.OfflineSchedule.AddScheduleEvents | AferoSwiftSDK/Core/Models/OfflineSchedule.swift:288-323 | every add is applied; the first rejection rejects the batch (successful adds stay); else the union of ids, or with commit the ids written |
| OfflineSchedules.OfflineSchedule.ReplaceScheduleEvent | AferoSwiftSDK/Core/Models/OfflineSchedule.swift:336-364 | the table and signals follow `ReplaceOne`; with commit a changed slot is written |
| OfflineSchedules.OfflineSchedule.ReplaceScheduleEventAt | AferoSwiftSDK/Core/Models/OfflineSchedule.swift:372-374 | replacing the event at a position always finds its slot |
| OfflineSchedules.OfflineSchedule.PerformReplacements | AferoSwiftSDK/Core/Models/OfflineSchedule.swift:385-413 | each replacement is applied, the fulfilled results kept in order, and with commit their slots written |
| OfflineSchedules.OfflineSchedule.Replace | AferoSwiftSDK/Core/Models/OfflineSchedule.swift:426-440 | lists of unequal length reject with nothing changed; else pairwise replacement, and when committing the slots of every fulfilled replacement (including one whose new event is `==` the old) are written once |
| OfflineSchedules.OfflineSchedule.RemoveScheduleEventAt | AferoSwiftSDK/Core/Models/OfflineSchedule.swift:198-221 | a position with no slot rejects; otherwise that slot is cleared, signalled, and with commit written |
| OfflineSchedules.OfflineSchedule.RemoveScheduleEvent | AferoSwiftSDK/Core/Models/OfflineSchedule.swift:231-239 | an event not held resolves to {} with nothing changed; otherwise the slot of the first collated `==` event is cleared; without commit it resolves to that slot id and nothing is written, with commit that one slot is written and the promise follows storage's reply |
| OfflineSchedules.OfflineSchedule.RemoveEvents | AferoSwiftSDK/Core/Models/OfflineSchedule.swift:1244-1250 | clears the matching slots in collated order, then writes them once |
| OfflineSchedules.OfflineSchedule.SetEnabled | AferoSwiftSDK/Core/Models/OfflineSchedule.swift:737-753 | `enabled` reads back as set, other flag bits are kept, and the flags are written |
| OfflineSchedules.OfflineSchedule.MigrateUTCEvent | AferoSwiftSDK/Core/Models/OfflineSchedule.swift:2034-2069 | no time zone rejects; a device-local event migrates to itself; an event not held or not convertible rejects with nothing changed; otherwise its slot gets the device-local form and, unless the form is `==` the old event, that slot is written |
| OfflineSchedules.OfflineSchedule.MigrateUTCEvents | AferoSwiftSDK/Core/Models/OfflineSchedule.swift:1966-1989 | no time zone resolves to [] and a failed conversion rejects, both with nothing changed; otherwise the batch is replaced and exactly the replaced slots are written once |
| WifiSetup.FromCode | AferoSwiftSDK/Core/WifiSetupManager.swift:60-70 | a raw value names an error exactly for 5…9 and 0xF0 |
| WifiSetup.CodeRoundTrip | AferoSwiftSDK/Core/WifiSetupManager.swift:60-70 | raw values and errors correspond one to one |
| WifiSetup.FromCommandState | AferoSwiftSDK/Core/WifiSetupManager.swift:111-121 | exactly the timed-out and failed command states map to an error, never the manager-state error |
| WifiSetup.FromCommandStateInjective | AferoSwiftSDK/Core/WifiSetupManager.swift:111-121 | distinct failure states map to distinct errors |
| WifiSetup.ToNSError | AferoSwiftSDK/Core/WifiSetupManager.swift:139-143 | the `NSError` has the setup-error domain |
| WifiSetup.FromNSError | AferoSwiftSDK/Core/WifiSetupManager.swift:123-130 | an `NSError` of another domain gives no setup error |
| WifiSetup.NSErrorRoundTrip | AferoSwiftSDK/Core/WifiSetupManager.swift:123-143 | every error survives the `NSError` round trip, and an `NSError` converts to an error exactly when it is that error's `NSError` |
| WifiSetup.MediaBits | AferoSwiftSDK/Core/WifiSetupManager.swift:160-169 | BLE = 1, WiFi = 2, LTE = 4, All = 7 |
| WifiSetup.ConnectionMediaTypes | AferoSwiftSDK/Core/WifiSetupManager.swift:245-267 | BLE always; WiFi exactly with a setup-state attribute; LTE exactly for a Bento; no other bits |
| WifiSetup.SameStateEquivalence | AferoSwiftSDK/Core/WifiSetupManager.swift:445-455 | state `==` is an equivalence that ignores the completion error |
| WifiSetup.StepTransitions | AferoSwiftSDK/Core/WifiSetupManager.swift:420-425 | apart from `stop()`, states change only not-ready ↔ ready and ready → managing; `stop()` always ends in completed without error |
| WifiSetup.RunStaysSettled | AferoSwiftSDK/Core/WifiSetupManager.swift:655-665 | no sequence of operations leaves completed, and none leaves managing except to completed |
| WifiSetup.LiveWifiSetupManager.constructor | AferoSwiftSDK/Core/WifiSetupManager.swift:631-634 | a new manager is not ready, unsubscribed, and has sent no events and made no hub calls |
| WifiSetup.LiveWifiSetupManager.GetWifiSetupManager | AferoSwiftSDK/Core/WifiSetupManager.swift:325-328 | a manager exists exactly for a WiFi-configurable device, and starts not ready |
| WifiSetup.LiveWifiSetupManager.SetState | AferoSwiftSDK/Core/WifiSetupManager.swift:643-648 | a state-change event is sent exactly when the new state is not `==` the old |
| WifiSetup.LiveWifiSetupManager.DeviceStateChanged | AferoSwiftSDK/Core/WifiSetupManager.swift:655-665 | from not ready or ready, availability picks ready or not ready; from managing or completed nothing changes |
| WifiSetup.LiveWifiSetupManager.Start | AferoSwiftSDK/Core/WifiSetupManager.swift:818-821 | subscribes, applies the current availability, and marks the device viewed |
| WifiSetup.LiveWifiSetupManager.Stop | AferoSwiftSDK/Core/WifiSetupManager.swift:823-835 | always ends completed without error; cancels association then scanning, stopping at a throw or a refused state |
| WifiSetup.LiveWifiSetupManager.Scan | AferoSwiftSDK/Core/WifiSetupManager.swift:839-884 | throws unless ready or managing, with nothing called; otherwise managing and the hub is asked for SSIDs |
| WifiSetup.LiveWifiSetupManager.CancelScan | AferoSwiftSDK/Core/WifiSetupManager.swift:888-904 | same guard; the state never changes |
| WifiSetup.LiveWifiSetupManager.AttemptAssociate | AferoSwiftSDK/Core/WifiSetupManager.swift:908-962 | throws unless ready or managing; otherwise managing, password-committed signalled, credentials sent |
| WifiSetup.LiveWifiSetupManager.CancelAttemptAssociate | AferoSwiftSDK/Core/WifiSetupManager.swift:966-981 | same guard; the state never changes |
| WifiSetup.LiveWifiSetupManager.CommandStateChanged | AferoSwiftSDK/Core/WifiSetupManager.swift:853-857 | the hub's command state is forwarded as an event; the manager state is unchanged |

## Findings

| source | as written | input that shows it | evidently intended | confidence | as-written member | corrected member |
|---|---|---|---|---|---|---|
| AferoSwiftSDK/Core/Models/OfflineSchedule.swift:109-121 | `attributeIdForIndex` checks the index against the number of slot ids, then indexes the collated events | two slots, one event, index 1: the guard passes and the array access traps | check against the number of events and throw out of bounds | high (not executed) | Collation.AttributeIdForIndexAsWritten, Collation.AttributeIdForIndexTraps | Collation.AttributeIdForIndex, Collation.AttributeIdForIndexSpec |

## Left out

- PromiseKit chaining, ReactiveSwift signals and observation, and logging. Promises are settled values, signals are appended logs, and the storage observation subscription is not modelled.
- The weak `storage` reference is assumed present. When storage is absent, a write would resolve with locally computed results; that path is not modelled.
- Storage's answer to a write is an input: either the whole write is rejected, or storage reports the set of ids it wrote.
- The ids written by a committing `addScheduleEvents` come from a Swift `Set`, which has no order. They are modelled as ascending.
- Calendar and time-zone arithmetic (`DateComponents`, `TimeZone`) is an uninterpreted `Conversion` parameter. Whether storage has a time zone is a boolean input. The `DeviceRule.Schedule` and `DateTypes.Time` conversions are not part of this model.
- The asynchronous batched migration driver (waiting between batches, the in-progress flag) is not part of this model. Only one migration batch is modelled.
- `DayOfWeek`, `DataType.size`, `AttributeValue(type:slice:)`, `suited()` and `UInt16` byte conversions are defined outside the modelled files. The sizes assumed in `Attributes.FixedSize` are 1 for Boolean/SInt8, 2 for SInt16, 4 for SInt32/Q15.16/Float32 and 8 for SInt64/Q31.32/Float64. The value codec's round trip is a hypothesis.
- `TimeSpecs.DayOf`: `daysOfWeek.first` has no defined order in Swift; the smallest day is taken.
- `Collation.CollatedEvents`: Swift's sort is not stable and the source sorts twice. Here one stable sort, in slot-id order, fixes the order of equal events.
- `ScheduleTables.SlotOf`: the source takes the first match in dictionary order, which is unspecified; the lowest slot id is taken.
- OfflineSchedules.OfflineSchedule.StorageUpdated requires that the inbound value does not trap the parser (see `ScheduleEvents.TrailingByteTraps`), and that the id is the flags attribute or a slot id. These are the only ids the subscription delivers.
- OfflineSchedules.OfflineSchedule.Create requires that no stored slot value traps the parser (see `ScheduleEvents.TrailingByteTraps`). The source would trap while priming; the model does not follow it there.
- OfflineSchedules.OfflineSchedule.PrimeStorage requires that no stored slot value traps the parser, for the same reason as `Create`.
- Attribute ids are typed 0…65535 (`AttributeId`). The source converts them with `UInt16(id)`, which traps outside that range, so ids outside it are excluded by type rather than modelled as a trap.
- OfflineSchedules.OfflineSchedule.SetEvent requires a slot id in 59002…59999. The source accepts any id, but every caller passes a slot id.
- OfflineSchedules.OfflineSchedule.EventAt and OfflineSchedules.OfflineSchedule.ReplaceScheduleEventAt require an index within the collated view; the source traps otherwise.
- WifiSetup: every `AferoSofthub` call is a log entry, and whether it throws is a boolean input. The SSID-list callback, the attribute-subscription translation, the hex decoding in `writeAttributeCallback`, RSSI bars, description strings and `NSError` user info are not modelled.
- WifiSetup.ManagerState: the error attached to `completed` is any Swift `Error` in the source; here it is a setup error.
- The REST client, AFNetworking plumbing, example app and test mocks are not part of this model.
