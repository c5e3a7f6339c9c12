# RDMnet library: endpoints, responders, controller replies and instance life cycle

This project models three parts of the RDMnet client library (`src/rdmnet`) and proves what they keep over
every call, every broker event and every run.

* **The device store** (`device.c`, the responder half of `common.c`). A device keeps endpoints packed in a
  growable array. Each endpoint owns a search tree of responders, identified by RID when they have one and by
  UID otherwise. API calls add and remove endpoints and responders in batches that roll back. The broker assigns
  dynamic UIDs in place, a disconnect takes them away, and 32-bit change numbers tell controllers when a list
  they have read is stale.
* **The controller's own RDM answers** (`controller.c`): the COMPONENT_SCOPE slot walk and its 88-byte reply,
  and the labels that can be read and, for the device label, written.
* **The handle registry** (`common.c`, the create and destroy paths, and the teardown callbacks of
  `core/client.c`): which instances a handle can reach, and when each instance is freed.

## How the model is built

The specification is a state machine over values. `DeviceSpec` says what a device looks like from outside and
what each call or broker event makes of it; `ControllerSpec`, `ControllerScopes` and `RegistrySpec` do the same
for the other two parts. The run theorems (`DeviceCoherence`, `DeviceNotifications`, `DeviceAssignment`,
`DeviceHistory`, `DeviceBinding`, `DeviceBatches`, `DeviceDuplicates`, `ControllerSpec`, `RegistrySpec`) speak about arbitrary
sequences of steps of these machines.

What one step or one reply does is also said without the machine's own helper functions. `DeviceCalls` gives, for
each API call, exactly when it succeeds, which error it returns otherwise, and which endpoints, responders, numbers
and messages it leaves; `DeviceEvents` does so for disconnects and UID assignments. `DeviceAnswers` and
`ControllerAnswers` say what every reply decodes to and every reason for a refusal, with the numbers of the standard
written out. `RegistryHistory` computes from the events alone what a client still has below it.

The code itself is modelled as classes that work in place. `Devices.Device` holds the endpoint array, its count
and the change numbers; an array entry refers to a `ResponderTrees.ResponderTree` on the heap, so that moving an
entry copies the reference, as `memmove` does in the source. `Controllers.Controller` holds the label buffers;
`Registries.Registry` the handle tree. Every method is proved to do exactly what the state machine says.
`DeviceRuns.Live` puts the two together for the device: whatever sequence of calls and events an object goes
through, its views are a run of the state machine.

`Responders`, `ResponderStore` and `Removal` hold the theory in between: the tree ordering, batches and their
rollback, and the compaction loop with its stale tail.

What comes from outside is a parameter: how much memory the allocator grants and what uninitialised cells
contain (`mem`, `grants`), whether the array could be grown (`grow`), the largest response buffer that can be had
(`available`), the result of sending a UID request (`request`), the handle the handle manager proposes and how far
a creation gets (`Progress`). Messages sent to the broker are appended to a log (`sent`). The search trees of the
platform library are sorted sequences with a comparison-guided search. The model is of the build with dynamic
memory.

## What the code does that its documentation does not say

* Removing endpoints lowers the count only after the last shift, so copies of the last entry stay visible to the
  next lookup. The result is right exactly when no id is asked for more often than it occurs
  (`RemovalConservesExactlyWhenCovered`); asking twice for an id that occurs once passes the existence check,
  releases one tree twice and loses another endpoint (`RepeatedRequestLosesAnother`).
* Leaving the assignment loop early is harmless exactly when no RID is on two endpoints
  (`EarlyExitIsExhaustiveExactlyWhenUnique`).
* Endpoint ids are not checked for duplicates, and updates carry only the id. The updates sent under an id are a
  gap-free account of an endpoint with that id exactly when a lookup finds this endpoint and no other one with the
  id has a dynamic responder (`GapFreeExactlyWhenHeard`); `DuplicateIdMisleads` is an input for which they are not.
* A disconnect hides dynamic UIDs without advancing a change number, so a controller that compares numbers across
  it can be misled exactly when some dynamic responder had a UID (`DisconnectCoherence`).
* A search by null RID compares an unset UID field (`RidSearchIgnoresUnsetUid`). RIDs passed in or received are
  therefore required to be non-null.
* Removing static or physical responders while connected advances the number, and announces it, twice.
* Adding dynamic responders keeps them when the request for their UIDs fails, and moves no number.
* The slot counter of COMPONENT_SCOPE has 16 bits. With 65535 slots or more a walk that finds nothing active up
  to slot 65535 leaves the array; otherwise it is right (`WalkIsRightExactlyWhenAddressable`).
* The manufacturer id a device uses for its dynamic UID requests is a field that creation leaves at zero; the
  model keeps it as a field of arbitrary value.

## Model

| member | source | states |
|---|---|---|
| Wire.AdvanceIsInjective | src/rdmnet/device.c:1528-1560 | fewer than 2^32 increments of a change number bring it back to its value only when there were none |
| Wire.BigEndian | src/rdmnet/device.c:1879 | fields are written with their high byte first |
| Responders.CompareIsTotalOrder | src/rdmnet/common.c:868-889 | the tree comparison is a total order; it is zero exactly for the same non-null RID, or both RIDs null and the same UID |
| Responders.OrderIsByRidThenUid | src/rdmnet/common.c:868-889 | the order is by RID bytes, and between responders without RID by manufacturer and then device id |
| Responders.SortedIsCanonical | src/rdmnet/common.c:868-889 | two trees with the same responders hold them in the same order |
| Responders.FindIsLinearScan | src/rdmnet/common.c:785-804 | a guided search in an ordered tree finds what a scan over all responders would, and nothing else |
| Responders.RidSearchIgnoresUnsetUid | src/rdmnet/common.c:785-793 | a search by RID is independent of the key's unset UID field if and only if the RID is not null |
| Responders.InsertKeepsSorted | src/rdmnet/common.c:990-1033 | inserting a new key keeps the order |
| Responders.RemoveKeyRemovesKey | src/rdmnet/common.c:806-837 | removing a key takes out exactly the responder with that key and keeps the order |
| ResponderStore.WithoutUndoesInsert | src/rdmnet/common.c:653-783 | taking back the inserted part of a batch restores the original contents and no pre-existing responder is lost |
| ResponderStore.SameKeysSameOrder | src/rdmnet/device.c:1770-1818 | writing UIDs of dynamic responders in place keeps the tree ordered |
| ResponderStore.MatchesMeans | src/rdmnet/device.c:1788-1806 | the match count is positive exactly when an OK mapping names a responder of the endpoint |
| ResponderTrees.AssignStep | src/rdmnet/device.c:1795-1806 | applying one more mapping changes the one responder with its RID and nothing else |
| ResponderTrees.ResponderTree.Insert | src/rdmnet/common.c:990-1033 | an equal key is refused, any other is placed in order |
| ResponderTrees.ResponderTree.AddStatic | src/rdmnet/common.c:653-692 | all UIDs of the batch are added or the tree is as before, at whichever index it failed |
| ResponderTrees.ResponderTree.AddDynamic | src/rdmnet/common.c:694-734 | the same for RIDs; new responders carry the dynamic UID request value |
| ResponderTrees.ResponderTree.AddPhysical | src/rdmnet/common.c:736-783 | the same for physical responders with their control field and binding UID |
| ResponderTrees.ResponderTree.RemoveByUids | src/rdmnet/common.c:822-837 | exactly the null-RID responders with the given UIDs go, repeated or not |
| ResponderTrees.ResponderTree.RemoveByRids | src/rdmnet/common.c:806-820 | exactly the responders with the given RIDs go |
| ResponderTrees.ResponderTree.Assign | src/rdmnet/device.c:1788-1806 | each dynamic responder ends with the UID of the last OK mapping for its RID; the matches are counted |
| ResponderTrees.ResponderTree.ResetDynamic | src/rdmnet/device.c:1632-1650 | every dynamic responder and no other is put back to the request value, the order is kept |
| Removal.CompactIgnoresLeftovers | src/rdmnet/device.c:1497-1526 | although stale copies pile up behind the live entries, covered requests never reach them: what is left is the original minus the first occurrences asked for, in order, and kept plus released is the original |
| Removal.RemovalConservesExactlyWhenCovered | src/rdmnet/device.c:1497-1526 | the loop loses no entry and releases none twice if and only if no id is asked for more often than it occurs |
| Removal.RepeatedRequestLosesAnother | src/rdmnet/device.c:1497-1526 | a concrete request that passes the existence check and loses an endpoint that was not asked for |
| DeviceInvariants.StepKeepsGood | src/rdmnet/device.c:776-1130 | every call and event keeps every tree ordered, every id in 1..63999 and physical endpoints free of dynamic responders |
| DeviceInvariants.RunKeepsGood | src/rdmnet/device.c:776-1130 | so in every state of every run |
| DeviceInvariants.NewDeviceIsGood | src/rdmnet/device.c:1298-1367 | a newly created device starts that way |
| DeviceBatches.VirtualFitsExactlyWhen | src/rdmnet/device.c:1408-1455 | a virtual endpoint can be set up if and only if there is memory and no RID and no UID is listed twice; it then holds exactly the configured responders |
| DeviceBatches.PhysicalFitsExactlyWhen | src/rdmnet/device.c:1457-1495 | the same for a physical endpoint, with binding data |
| DeviceBatches.AddVirtualsIsAllOrNothing | src/rdmnet/device.c:659-684 | on any failure nothing changes; on success the old endpoints are untouched and the new ones follow in order, as configured, with number 0 |
| DeviceBatches.AddPhysicalsIsAllOrNothing | src/rdmnet/device.c:581-606 | the same for physical endpoints: nothing on failure, otherwise exactly the configured responders with their binding data |
| DeviceBatches.UidRemovalIsSetDifference | src/rdmnet/device.c:934-989 | if every UID is there exactly those responders go and no dynamic one; otherwise the call fails and nothing changes |
| DeviceBatches.RidRemovalIsSetDifference | src/rdmnet/device.c:1009-1052 | the same by RID; no static responder is touched |
| DeviceCoherence.StepFollows | src/rdmnet/device.c:776-1130 | one step between list changes advances an endpoint's number by a known count, and when that is zero the endpoint reports the same UIDs unless the step is a disconnect |
| DeviceCoherence.ListCoherence | src/rdmnet/device.c:1859-1894 | between any two states of a run, over fewer than 2^32 list changes, equal list numbers mean equal ENDPOINT_LIST replies |
| DeviceCoherence.SessionCoherence | src/rdmnet/device.c:1922-1985 | between any two states of a run, with no disconnect and fewer than 2^32 increments between them, equal list and endpoint numbers mean byte-identical ENDPOINT_RESPONDERS replies, for every interleaving of calls and assignments |
| DeviceCoherence.DisconnectCoherence | src/rdmnet/device.c:1620-1657 | a disconnect moves no number and keeps the reply if and only if every dynamic responder was still waiting for a UID |
| DeviceNotifications.ListNotificationsAreGapFree | src/rdmnet/device.c:1528-1542 | through a connected session the list numbers sent are consecutive modulo 2^32 and end at the stored number |
| DeviceNotifications.ResponderNotificationsAreGapFree | src/rdmnet/device.c:1544-1560 | so are the numbers sent for the endpoint a lookup finds, between list changes and including both steps of a removal by UID, when no other endpoint with the id has a dynamic responder |
| DeviceDuplicates.GapFreeExactlyWhenHeard | src/rdmnet/device.c:1544-1576 | from a connected device, every session is gap-free for an endpoint with an id if and only if a lookup of the id finds it and no other endpoint with the id has a dynamic responder |
| DeviceDuplicates.DuplicateIdMisleads | src/rdmnet/device.c:1770-1818 | two endpoints with one id, and an assignment announced with a number that the endpoint found by the id does not have |
| DeviceAssignment.LeavingEarlyIsExhaustive | src/rdmnet/device.c:1770-1818 | with no RID on two endpoints, leaving early and skipping physical endpoints ends in the state of the exhaustive loop |
| DeviceAssignment.EarlyExitIsExhaustiveExactlyWhenUnique | src/rdmnet/device.c:1770-1818 | for every assignment list the early exit is exhaustive if and only if no RID is on two endpoints |
| DeviceAssignment.AssignmentIsReportedExactlyWhenMatched | src/rdmnet/device.c:1770-1818 | the handler returns true if and only if some OK mapping names a responder of the device |
| DeviceHistory.UidsFollowHistory | src/rdmnet/device.c:1770-1818 | in every state of every run with unique RIDs, a dynamic responder's UID is that of the last OK mapping for its RID since the later of its addition and the last disconnect, otherwise the request value |
| DeviceHistory.NewDeviceStartsHistory | src/rdmnet/device.c:1298-1367 | a newly created device meets the starting condition of that theorem |
| DeviceHistory.DisconnectedReportsNoDynamic | src/rdmnet/device.c:1620-1657 | if assignments arrive only while connected, a disconnected device reports no dynamic responder |
| DeviceBinding.AddBinds | src/rdmnet/device.c:884-914 | after a successful add every responder of the batch is on its endpoint as configured |
| DeviceBinding.AddPhysicalsBinds | src/rdmnet/device.c:1457-1495 | so is every responder configured with a new endpoint, unless an earlier endpoint has the id |
| DeviceBinding.NewDeviceBinds | src/rdmnet/device.c:1298-1324 | so is every physical responder a device is created with |
| DeviceBinding.BindingPersists | src/rdmnet/device.c:2033-2096 | from any state in which a responder is on its endpoint, BINDING_CONTROL_FIELDS returns its control field and binding UID after any run that removes neither the responder nor its endpoint |
| DeviceBinding.AddedBindingPersists | src/rdmnet/device.c:884-914 | in particular from the call that adds it on |
| DeviceBinding.ConfiguredBindingPersists | src/rdmnet/device.c:1298-1324 | and from the creation of the device on |
| DeviceReplies.RespondersRoundTrip | src/rdmnet/device.c:1951-1984 | ENDPOINT_RESPONDERS decodes to the endpoint id, the number and the reportable UIDs in order; its length is 6 + 6 per UID |
| DeviceReplies.ListRoundTrip | src/rdmnet/device.c:1859-1894 | ENDPOINT_LIST decodes to the list number and each endpoint's id and type in order |
| DeviceReplies.BindingRoundTrip | src/rdmnet/device.c:2033-2096 | BINDING_CONTROL_FIELDS decodes to all four values |
| Devices.RemovalReleasesOnce | src/rdmnet/device.c:1509-1523 | after a covered removal the entries kept own different, unreleased trees and every other tree was released exactly once |
| Devices.RespondersOf | src/rdmnet/device.c:1951-1984 | the packing loop writes exactly the bytes of the reply: the length, lowered for each skipped responder, equals what was written and stays within the buffer |
| Devices.ListOf | src/rdmnet/device.c:1859-1894 | the packing loop writes exactly the bytes of the reply |
| Devices.BindingOf | src/rdmnet/device.c:2065-2095 | the sixteen bytes of the reply |
| Devices.Device.constructor | src/rdmnet/device.c:1298-1312 | a device starts with no endpoint, numbers at zero and unconnected |
| Devices.Device.FindSlot | src/rdmnet/device.c:1562-1576 | the first entry with the id, or none |
| Devices.Device.NotifyList | src/rdmnet/device.c:1528-1542 | the list number is advanced modulo 2^32 and, while connected, announced |
| Devices.Device.NotifyResponders | src/rdmnet/device.c:1544-1560 | the same for one endpoint; nothing else changes |
| Devices.Device.AddVirtualEndpoints | src/rdmnet/device.c:1408-1455 | staging behind the count and committing at the end is all or nothing; trees staged in vain are released once, live ones not touched |
| Devices.Device.AddPhysicalEndpoints | src/rdmnet/device.c:1457-1495 | the same for physical endpoints |
| Devices.Device.ShiftOut | src/rdmnet/device.c:1509-1522 | the memmove loop computes the compaction and releases a tree once for each entry taken out |
| Devices.Device.RemoveAll | src/rdmnet/device.c:1497-1526 | nothing changes if an id is missing; otherwise the first occurrences go, and no tree is shared, lost or released twice |
| Devices.Device.Destroy | src/rdmnet/common.c:929-939 | every tree the device ever had has been released exactly once and not been used since |
| Devices.Device.Populate | src/rdmnet/device.c:1309-1324 | a new device gets its physical and then its virtual endpoints, and with enough array space does so exactly when all of them fit; otherwise every tree initialised on the way is released exactly once |
| Devices.Device.AddVirtuals | src/rdmnet/device.c:659-684 | the API call refines the state machine, with its error results |
| Devices.Device.AddPhysicals | src/rdmnet/device.c:581-606 | likewise |
| Devices.Device.Remove | src/rdmnet/device.c:733-755 | likewise |
| Devices.Device.AddStatic | src/rdmnet/device.c:776-806 | likewise: one batch, one advance, nothing on failure |
| Devices.Device.AddDynamic | src/rdmnet/device.c:830-863 | likewise: no advance, a UID request while connected, responders kept if that fails |
| Devices.Device.AddPhysical | src/rdmnet/device.c:884-914 | likewise |
| Devices.Device.RemoveByUids | src/rdmnet/device.c:934-989 | likewise: two advances while connected, one otherwise |
| Devices.Device.RemoveDynamic | src/rdmnet/device.c:1009-1052 | likewise |
| Devices.Device.Connect | src/rdmnet/device.c:1578-1599 | the device counts as connected; nothing else changes |
| Devices.Device.Disconnect | src/rdmnet/device.c:1620-1657 | every dynamic responder of every endpoint waits for a UID again; no number moves |
| Devices.Device.AssignUids | src/rdmnet/device.c:1770-1818 | the nested loop with its early exit ends in the specified state and reports whether anything matched |
| Devices.Device.GetResponders | src/rdmnet/device.c:1922-1985 | the reply or the NACK reason, in the order the code checks |
| Devices.Device.GetResponderListChange | src/rdmnet/device.c:1987-2031 | likewise |
| Devices.Device.GetBinding | src/rdmnet/device.c:2033-2096 | likewise |
| Devices.Device.GetListChange | src/rdmnet/device.c:1896-1920 | likewise |
| Devices.Device.GetList | src/rdmnet/device.c:1859-1894 | likewise |
| DeviceRuns.Perform | src/rdmnet/device.c:581-1130 | any one legal call or event is a step of the state machine, and no released tree comes back into use |
| DeviceRuns.Live | src/rdmnet/device.c:581-1818 | whatever legal sequence of calls and events a device goes through before it is destroyed, its views are a run of the state machine and each tree ever initialised is released exactly once |
| DeviceBatches.EmptyVirtualFits | src/rdmnet/device.c:1408-1455 | an endpoint without responders needs no memory and comes out empty |
| DeviceCalls.NewDeviceAnswer | src/rdmnet/device.c:1298-1324 | a new device has the configured endpoints, physical ones first, with the configured responders, zero numbers, no connection and nothing sent |
| DeviceCalls.AddVirtualsAnswer | src/rdmnet/device.c:659-684 | adding virtual endpoints is Invalid exactly for an empty list or an id outside 1 to 63999, succeeds exactly when there is room, memory and no RID or UID twice on an endpoint, and is otherwise NoMem; on success the endpoints follow the old ones as configured and the list advances once, on failure nothing changes |
| DeviceCalls.AddPhysicalsAnswer | src/rdmnet/device.c:581-606 | the same for physical endpoints |
| DeviceCalls.RemoveAnswer | src/rdmnet/device.c:733-755 | removing endpoints succeeds exactly when some ids are given and every one is on the device; then of each id the first endpoints go, as many as were asked for, the others stay in order, and the list advances once; otherwise nothing changes |
| DeviceCalls.RemoveOneAnswer | src/rdmnet/device.c:698-731 | removing one endpoint takes out the first with the id and closes the gap |
| DeviceCalls.RemovalShrinks | src/rdmnet/device.c:1497-1526 | a successful removal shortens the list by the number of ids asked for |
| DeviceCalls.AddStaticAnswer | src/rdmnet/device.c:776-806 | every error with its condition; on success the endpoint holds exactly its former responders and the new UIDs, advances once and announces it while connected |
| DeviceCalls.AddPhysicalAnswer | src/rdmnet/device.c:884-914 | the same for physical responders, with their control fields and binding UIDs |
| DeviceCalls.AddDynamicAnswer | src/rdmnet/device.c:830-863 | every error with its condition; on success the endpoint holds exactly its former responders and the new RIDs, waiting; no number moves; while connected one request with exactly these RIDs is sent and its result is the result of the call |
| DeviceCalls.RemoveUidsAnswer | src/rdmnet/device.c:934-989 | removal by UID succeeds exactly when every UID is on a responder without RID; then exactly those go, and the number advances twice while connected and once otherwise |
| DeviceCalls.RemoveDynamicAnswer | src/rdmnet/device.c:1009-1052 | the same by RID, with one advance |
| DeviceEvents.RequestKeepsManufacturer | src/rdmnet/common.c:1004-1016 | the request value is the manufacturer with its top bit set and device id zero, and is recognised as one; nothing else is |
| DeviceEvents.DisconnectAnswer | src/rdmnet/device.c:1620-1657 | a disconnect clears the connected flag and puts the request value on every dynamic responder; ids, numbers, other responders and the messages sent stay |
| DeviceEvents.VisitedMeans | src/rdmnet/device.c:1779-1815 | the assignment loop stops behind the first virtual endpoint at which as many mappings have matched as there are |
| DeviceEvents.AssignAnswer | src/rdmnet/device.c:1770-1818 | each visited endpoint that a successful mapping names gets, on each responder named, the UID of the last mapping for it, advances once, and is announced in order while connected; nothing else changes |
| DeviceAnswers.ListAnswer | src/rdmnet/device.c:1859-1894 | ENDPOINT_LIST decodes to the list number and every endpoint with id and type, 0 for virtual and 1 for physical, in order |
| DeviceAnswers.ListChangeAnswer | src/rdmnet/device.c:1896-1920 | ENDPOINT_LIST_CHANGE decodes to the list number |
| DeviceAnswers.ListRefusal | src/rdmnet/device.c:1859-1920 | both are refused exactly for another command class or for want of a buffer, each with its reason |
| DeviceAnswers.RespondersAnswer | src/rdmnet/device.c:1951-1984 | ENDPOINT_RESPONDERS decodes to the id asked for, that endpoint's own number, and the UIDs of all its responders that have one, in order |
| DeviceAnswers.RespondersRefusal | src/rdmnet/device.c:1922-1950 | which reason a refusal gives: class, short data, no endpoint with the id, no buffer |
| DeviceAnswers.ResponderListChangeAnswer | src/rdmnet/device.c:1987-2031 | ENDPOINT_RESPONDER_LIST_CHANGE decodes to the id asked for and that endpoint's own number |
| DeviceAnswers.ResponderListChangeRefusal | src/rdmnet/device.c:1987-2015 | which reason a refusal gives |
| DeviceAnswers.BindingAnswer | src/rdmnet/device.c:2065-2095 | BINDING_CONTROL_FIELDS decodes to the id and UID asked for and the control field and binding UID of that responder |
| DeviceAnswers.BindingRefusal | src/rdmnet/device.c:2033-2064 | which reason a refusal gives: class, short data, no endpoint with the id |
| DeviceAnswers.UnknownUidIsRefused | src/rdmnet/device.c:2065-2072 | a UID that no responder without RID of the endpoint has is refused as unknown |
| DeviceAnswers.NoBufferNoAnswer | src/rdmnet/device.c:1951-1957 | without a buffer for the whole answer, counted before skipping responders, there is none |
| ControllerScopes.WalkIsRightExactlyWhenAddressable | src/rdmnet/controller.c:1471-1484 | the 16-bit walk finds the least active slot at or above the one asked for, or none, if and only if the slots to pass can be counted in 16 bits |
| ControllerScopes.ScopeRoundTrip | src/rdmnet/controller.c:1508-1540 | for IPv4, IPv6 and no static broker alike the 88 bytes decode to slot, scope string, configuration type, address and port |
| ControllerScopes.RepliesDifferExactlyWhenReportsDo | src/rdmnet/controller.c:1508-1540 | two scopes give the same reply if and only if nothing that is reported tells them apart |
| ControllerScopes.ActiveSlotsAreAll | src/rdmnet/controller.c:1471-1484 | the list of active slots is complete, without repetition and in order |
| ControllerScopes.ReadOutIsComplete | src/rdmnet/controller.c:1426-1542 | asking for slot 1 and then for the slot after each answer yields every active scope's record once and in order, takes at most one query more than there are active scopes, and only that last one is refused; that last one exists only with fewer than 65535 slots |
| Controllers.PackScope | src/rdmnet/controller.c:1508-1541 | the cursor-driven packing writes exactly those 88 bytes |
| Controllers.PackSupported | src/rdmnet/controller.c:1312-1342 | the packing loop writes the parameter ids in order |
| Controllers.PackInfo | src/rdmnet/controller.c:1344-1382 | the nineteen bytes of the reply |
| Controllers.PackDomain | src/rdmnet/controller.c:1544-1573 | the configured search domain, or the default for an empty one |
| Controllers.PackIdentify | src/rdmnet/controller.c:1575-1594 | one zero byte |
| Controllers.StoreLabel | src/rdmnet/core/util.c:344-355 | a configured text is kept up to its terminator or its first 32 characters, always terminated |
| Controllers.LengthOf | src/rdmnet/controller.c:1395 | the length scan stays in the buffer and stops at the first terminator |
| Controllers.Controller.constructor | src/rdmnet/controller.c:1056-1071 | the configured data is copied into terminated buffers |
| Controllers.Controller.FindScope | src/rdmnet/controller.c:1471-1484 | the loop computes the walk |
| Controllers.Controller.ComponentScope | src/rdmnet/controller.c:1428-1542 | the reply or the NACK reason, in the order the code checks |
| Controllers.Controller.SetLabel | src/rdmnet/controller.c:1408-1416 | the payload and a terminator overwrite the front of the buffer, the rest stays |
| Controllers.Controller.Handle | src/rdmnet/controller.c:1252-1310 | each command gets the specified reply and changes the device label or nothing |
| ControllerScopes.ActiveMeans | src/rdmnet/controller.c:1471-1484 | a scope counts unless its entry is free or marked for destruction, in whatever state its connection is |
| ControllerScopes.ScopeLayout | src/rdmnet/controller.c:1508-1541 | where in the 88 bytes the slot, the scope string, the address type, both addresses and the port stand |
| ControllerSpec.OverwrittenReadsBack | src/rdmnet/controller.c:1384-1424 | whatever the buffer held, the text read after a SET is the payload up to its first NUL |
| ControllerSpec.LabelFollowsRun | src/rdmnet/controller.c:1252-1310 | over any sequence of commands the device label is the last accepted SET or the configured one, no other field ever changes, and nothing changes when the label is not settable |
| ControllerSpec.LabelIsReported | src/rdmnet/controller.c:1384-1424 | GET DEVICE_LABEL after any sequence of commands answers with that label |
| ControllerAnswers.KeptMeans | src/rdmnet/core/util.c:344-355 | a label keeps the text up to its terminator, at most 32 characters of it |
| ControllerAnswers.LabelsAnswer | src/rdmnet/controller.c:1384-1424 | each label parameter answers with the stored label of that name, or HardwareFault when it does not fit |
| ControllerAnswers.RunKeepsAnswers | src/rdmnet/controller.c:1252-1310 | no run of commands changes the answer to any parameter but the device label |
| ControllerAnswers.ConfiguredLabelsAnswer | src/rdmnet/controller.c:1056-1071 | after any run the manufacturer, model and software labels read as what was kept of the configured texts |
| ControllerAnswers.SupportedAnswer | src/rdmnet/controller.c:1312-1342 | SUPPORTED_PARAMETERS decodes to the nine parameter ids |
| ControllerAnswers.InfoAnswer | src/rdmnet/controller.c:1344-1382 | DEVICE_INFO decodes to the protocol version, the configured model, category and version, and no DMX address, sub-devices or sensors |
| ControllerAnswers.DomainAndIdentifyAnswer | src/rdmnet/controller.c:1544-1594 | SEARCH_DOMAIN gives the domain, or "local." when there is none; IDENTIFY_DEVICE gives off |
| ControllerAnswers.ScopeAnswer | src/rdmnet/controller.c:1428-1542 | COMPONENT_SCOPE decodes to the record of the first active slot at or above the one asked for; slot zero, slots past the end and slots behind the last active one are out of range |
| ControllerAnswers.ShortScopeQuery | src/rdmnet/controller.c:1428-1460 | a query of fewer than two bytes is a format error |
| ControllerAnswers.UnknownAnswer | src/rdmnet/controller.c:1252-1310 | a GET of any other parameter is refused as unknown |
| ControllerAnswers.SetAnswer | src/rdmnet/controller.c:1252-1310 | every command that is not a GET is refused for its class, except a SET of a settable device label, which is accepted without data |
| ControllerAnswers.OnlySetLabelChanges | src/rdmnet/controller.c:1405-1424 | an accepted SET replaces the device label by its payload up to a terminator; every other command leaves all stored data as it is |
| RegistrySpec.StepIsSound | src/rdmnet/common.c:477-534 | every step keeps handles unique, registered instances live and unmarked, freed ones out of reach, and forgets no instance ever made |
| RegistrySpec.LookupFindsExactlyTheLive | src/rdmnet/common.c:839-845 | in every state of every run a lookup answers with an instance if and only if it is registered under that handle and type, and never with a freed one |
| RegistrySpec.EachIsFreedOnce | src/rdmnet/common.c:596-629 | in every state of every run an instance ever made is in memory or freed, never both, and freed at most once; after the registry is cleared exactly once |
| RegistrySpec.DestroyFreesOrWaits | src/rdmnet/device.c:266-280 | destroy frees on the spot if and only if nothing is left below the instance, otherwise it waits; either way its handle finds it no more |
| RegistrySpec.WaitingEndsWithTheLast | src/rdmnet/core/client.c:1315-1341 | from any state of a run in which an instance waits, it is later freed if and only if some callback has taken the last scope or target below it away, and until then it stays in memory |
| Registries.Registry.Find | src/rdmnet/common.c:839-845 | only a live instance of the type asked for |
| Registries.Registry.Unregister | src/rdmnet/core/client.c:374-392 | the instance leaves the handle tree and is freed at once when nothing below it is left |
| Registries.Registry.Create | src/rdmnet/device.c:1298-1367 | wherever a creation fails, what was allocated is freed once and nothing stays registered |
| Registries.Registry.Destroy | src/rdmnet/controller.c:293-311 | refines the destroy step, with its error results |
| Registries.Registry.OpenScope | src/rdmnet/core/client.c:1825-1880 | a registered instance gains a scope in use |
| Registries.Registry.ScopeGone | src/rdmnet/core/client.c:1315-1341 | the end of a connection, and the freeing it may cause |
| Registries.Registry.TargetGone | src/rdmnet/core/client.c:1771-1791 | the end of the LLRP target, and the freeing it may cause |
| Registries.Registry.Clear | src/rdmnet/common.c:275-283 | every registered instance is freed once |
| RegistryHistory.RunFollowsHistory | src/rdmnet/core/client.c:1315-1341 | in every state of every run, what an instance in memory has below it is what the events opened and did not report gone |
| RegistryHistory.DestroyFreesExactlyWhenNothingIsLeft | src/rdmnet/device.c:266-280 | destroying an instance frees it on the spot if and only if its history leaves nothing below it; otherwise it waits |
| RegistryHistory.CreateAnswer | src/rdmnet/device.c:1298-1367 | a new instance is found by its handle if and only if all went well and the handle was free, waits if only its scope failed, and is freed in every other case in which it got memory; no other instance is affected |
| RegistryHistory.DestroyAnswer | src/rdmnet/controller.c:293-311 | destroying by a handle nobody of the type has does nothing; otherwise only that instance is affected |

## Left out

- Static-memory builds: memory pools, fixed capacities and the device-wide responder limit.
- Locks, threads and the tick thread: each call or callback is one atomic step.
- Red-black balancing and node allocation of the platform library: trees are sorted sequences; a refused insert is a parameter in the registry and shows as a taken key in a responder tree.
- The memory of the new cell when a responder insert is refused: the source does not release it; the allocation laws here are about tree contents.
- DeviceSpec.Legal: calls and mappings with a null RID are excluded, because the search for it compares a field that is never set and its outcome is not determined (`RidSearchIgnoresUnsetUid`); so are removals that ask for an id more often than it occurs, because they release a tree twice (`RemovalConservesExactlyWhenCovered`).
- DeviceCoherence.SessionCoherence: replies refused for want of a response buffer are excluded, because the buffer size is outside the device's state.
- ControllerScopes.ReadOutIsComplete: stated for scopes that do not change during the read-out and queries whose walk stays in the array.
- ControllerSpec.ReplyTo: label payloads over 32 bytes are excluded. The code does not refuse them: it writes the terminator at the payload's length, past the 33-byte buffer from a length of 33 on (src/rdmnet/controller.c:1409), and what that changes is not defined.
- RegistrySpec.EachIsFreedOnce: assumes that a connection or target reports its end once and that the core is shut down before the registry is cleared, as the source's reference lists and `rdmnet_deinit` arrange.
- The endpoint buffer of a device whose registration fails at the tree insert: the source does not release it; the registry model counts instances only.
- LLRP managers and targets, EPT clients and their instances in the registry.
- The device's own dispatch by parameter id, and commands handed on to application callbacks.
- Forwarding API calls (sending commands, responses and status, changing scope or search domain) and message parsing in `core`.
- Any promise that a requested dynamic UID arrives.
